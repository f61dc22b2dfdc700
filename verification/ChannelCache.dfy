/** The in-memory channel cache: the inverted index from group and model to
    channels, status updates, and the choice of a channel for a request. */
module ChannelCache {
  import opened Wrappers
  import opened Text
  import opened Abilities
  import opened ChannelStatus
  import RetrySchedule
  import WeightedPick

  type Index = map<string, map<string, seq<int>>>

  function ListAt(index: Index, group: string, model: string): seq<int> {
    if group in index && model in index[group] then index[group][model] else []
  }

  function PriorityOf(idm: map<int, Channel>, id: int): int {
    if id in idm then idm[id].priority else 0
  }

  ghost predicate SortedDesc(ids: seq<int>, idm: map<int, Channel>) {
    forall i, j :: 0 <= i < j < |ids| ==> PriorityOf(idm, ids[i]) >= PriorityOf(idm, ids[j])
  }

  ghost predicate NoDuplicates(ids: seq<int>) {
    forall i, j :: 0 <= i < j < |ids| ==> ids[i] != ids[j]
  }

  // ---------------------------------------------------------------------
  // Building the index
  // ---------------------------------------------------------------------

  function RawOfGroup(group: string, models: seq<string>): seq<Pair> {
    if models == [] then [] else RawOfGroup(group, models[..|models| - 1]) + [Pair(group, models[|models| - 1])]
  }

  /** The (group, model) pairs the cache appends a channel under: groups
      outside, models inside, nothing trimmed and nothing deduplicated. */
  function RawPairs(groups: seq<string>, models: seq<string>): seq<Pair> {
    if groups == [] then []
    else RawPairs(groups[..|groups| - 1], models) + RawOfGroup(groups[|groups| - 1], models)
  }

  /** How often the cache appends a channel to the list of a group and model. */
  function Times(c: Channel, group: string, model: string): nat {
    if c.status == STATUS_ENABLED
    then multiset(RawPairs(Split(c.group, ','), Split(c.models, ',')))[Pair(group, model)]
    else 0
  }

  /** How often an id is appended by a list of rows. */
  function Occurrences(rows: seq<Channel>, group: string, model: string, id: int): nat {
    if rows == [] then 0
    else
      var last := rows[|rows| - 1];
      Occurrences(rows[..|rows| - 1], group, model, id) + if last.id == id then Times(last, group, model) else 0
  }

  function AppendTo(index: Index, group: string, model: string, id: int): Index
    requires group in index
  {
    index[group := index[group][model := ListAt(index, group, model) + [id]]]
  }

  /** Appending changes one list, by one element at its end. */
  lemma {:induction false} AppendChanges(index: Index, group: string, model: string, id: int)
    requires group in index
    ensures AppendTo(index, group, model, id).Keys == index.Keys
    ensures forall g, m :: ListAt(AppendTo(index, group, model, id), g, m) ==
              if g == group && m == model then ListAt(index, g, m) + [id] else ListAt(index, g, m)
  {
  }

  function TableGroups(table: Table): set<string> { set k | k in table :: k.group }

  /** Writing under a group that no ability row mentions writes to a nil map,
      which panics. */
  ghost predicate GroupsKnown(rows: seq<Channel>, groups: set<string>) {
    forall c, g :: c in rows && c.status == STATUS_ENABLED && g in Split(c.group, ',') ==> g in groups
  }

  /** `index` holds `base` plus the channel appended under the pairs `done`. */
  ghost predicate Appended(index: Index, base: Index, done: seq<Pair>, id: int) {
    && index.Keys == base.Keys
    && forall g, m, x ::
         multiset(ListAt(index, g, m))[x] ==
         multiset(ListAt(base, g, m))[x] + if x == id then multiset(done)[Pair(g, m)] else 0
  }

  lemma {:induction false} AppendOne(index: Index, base: Index, done: seq<Pair>, id: int, group: string, model: string)
    requires Appended(index, base, done, id) && group in index
    ensures Appended(AppendTo(index, group, model, id), base, done + [Pair(group, model)], id)
  {
    AppendChanges(index, group, model, id);
    var next := AppendTo(index, group, model, id);
    forall g, m, x
      ensures multiset(ListAt(next, g, m))[x] ==
                multiset(ListAt(base, g, m))[x]
                + if x == id then multiset(done + [Pair(group, model)])[Pair(g, m)] else 0
    {
      assert multiset(ListAt(index, g, m))[x] ==
             multiset(ListAt(base, g, m))[x] + if x == id then multiset(done)[Pair(g, m)] else 0;
    }
  }

  lemma {:induction false} RawStep(group: string, models: seq<string>, k: nat)
    requires k < |models|
    ensures RawOfGroup(group, models[..k + 1]) == RawOfGroup(group, models[..k]) + [Pair(group, models[k])]
  {
    assert models[..k + 1][..k] == models[..k];
  }

  lemma {:induction false} RawGroupStep(groups: seq<string>, models: seq<string>, j: nat)
    requires j < |groups|
    ensures RawPairs(groups[..j + 1], models) == RawPairs(groups[..j], models) + RawOfGroup(groups[j], models)
  {
    assert groups[..j + 1][..j] == groups[..j];
  }

  /** The inner loops of InitChannelCache for one enabled channel. */
  method AddChannel(base: Index, c: Channel) returns (ok: bool, index: Index)
    requires c.status == STATUS_ENABLED
    ensures ok <==> forall g :: g in Split(c.group, ',') ==> g in base
    ensures ok ==> Appended(index, base, RawPairs(Split(c.group, ','), Split(c.models, ',')), c.id)
  {
    hide Appended, RawPairs, RawOfGroup, Split;
    index := base;
    var groupList := Split(c.group, ',');
    var models := Split(c.models, ',');
    ghost var done: seq<Pair> := [];
    StartAppending(base, c.id, models);
    assert groupList[..0] == [];
    for j := 0 to |groupList|
      invariant index.Keys == base.Keys
      invariant forall g :: g in groupList[..j] ==> g in base
      invariant done == RawPairs(groupList[..j], models)
      invariant Appended(index, base, done, c.id)
    {
      var group := groupList[j];
      ghost var before := done;
      assert group in groupList;
      StartGroup(group);
      assert models[..0] == [];
      for k := 0 to |models|
        invariant index.Keys == base.Keys
        invariant k > 0 ==> group in base
        invariant done == before + RawOfGroup(group, models[..k])
        invariant Appended(index, base, done, c.id)
      {
        var model := models[k];
        if group !in index {
          return false, base;
        }
        AppendOne(index, base, done, c.id, group, model);
        AppendChanges(index, group, model, c.id);
        index := AppendTo(index, group, model, c.id);
        RawStep(group, models, k);
        done := done + [Pair(group, model)];
      }
      assert models[..|models|] == models;
      RawGroupStep(groupList, models, j);
      assert groupList[..j + 1] == groupList[..j] + [group];
    }
    assert groupList[..|groupList|] == groupList;
    return true, index;
  }

  lemma {:induction false} StartAppending(base: Index, id: int, models: seq<string>)
    ensures Appended(base, base, [], id) && RawPairs([], models) == []
  {
  }

  lemma {:induction false} StartGroup(group: string)
    ensures RawOfGroup(group, []) == []
  {
  }

  // ---------------------------------------------------------------------
  // Sorting
  // ---------------------------------------------------------------------

  /** `sorted` is what sort.Slice may leave of `ids`: the same elements in
      non-increasing priority.  The order among equals is not determined. */
  ghost predicate SortOf(sorted: seq<int>, ids: seq<int>, idm: map<int, Channel>) {
    multiset(sorted) == multiset(ids) && SortedDesc(sorted, idm)
  }

  function InsertDesc(ids: seq<int>, id: int, idm: map<int, Channel>): (r: seq<int>)
    ensures |r| == |ids| + 1
  {
    if ids == [] || PriorityOf(idm, id) >= PriorityOf(idm, ids[0]) then [id] + ids
    else [ids[0]] + InsertDesc(ids[1..], id, idm)
  }

  function SortDesc(ids: seq<int>, idm: map<int, Channel>): seq<int> {
    if ids == [] then [] else InsertDesc(SortDesc(ids[1..], idm), ids[0], idm)
  }

  lemma {:induction false} InsertKeepsElements(ids: seq<int>, id: int, idm: map<int, Channel>)
    ensures multiset(InsertDesc(ids, id, idm)) == multiset(ids) + multiset{id}
  {
    if !(ids == [] || PriorityOf(idm, id) >= PriorityOf(idm, ids[0])) {
      InsertKeepsElements(ids[1..], id, idm);
      assert ids == [ids[0]] + ids[1..];
    }
  }

  lemma {:induction false} ConsSorted(id: int, ids: seq<int>, idm: map<int, Channel>)
    requires SortedDesc(ids, idm) && (ids != [] ==> PriorityOf(idm, id) >= PriorityOf(idm, ids[0]))
    ensures SortedDesc([id] + ids, idm)
  {
  }

  lemma {:induction false} InsertKeepsOrder(ids: seq<int>, id: int, idm: map<int, Channel>)
    requires SortedDesc(ids, idm)
    ensures SortedDesc(InsertDesc(ids, id, idm), idm)
    ensures InsertDesc(ids, id, idm)[0] == id || (ids != [] && InsertDesc(ids, id, idm)[0] == ids[0])
  {
    if ids == [] || PriorityOf(idm, id) >= PriorityOf(idm, ids[0]) {
      ConsSorted(id, ids, idm);
    } else {
      InsertKeepsOrder(ids[1..], id, idm);
      ConsSorted(ids[0], InsertDesc(ids[1..], id, idm), idm);
    }
  }

  lemma {:induction false} SortDescSorts(ids: seq<int>, idm: map<int, Channel>)
    ensures SortOf(SortDesc(ids, idm), ids, idm)
  {
    if ids != [] {
      SortDescSorts(ids[1..], idm);
      InsertKeepsOrder(SortDesc(ids[1..], idm), ids[0], idm);
      InsertKeepsElements(SortDesc(ids[1..], idm), ids[0], idm);
      assert ids == [ids[0]] + ids[1..];
    }
  }

  // ---------------------------------------------------------------------
  // The cache
  // ---------------------------------------------------------------------

  function IdMap(rows: seq<Channel>): map<int, Channel> {
    if rows == [] then map[] else IdMap(rows[..|rows| - 1])[rows[|rows| - 1].id := rows[|rows| - 1]]
  }

  /** A polling channel that was already polling keeps its saved position. */
  function Carried(c: Channel, id: int, previous: map<int, Channel>): Channel {
    if c.polling.Some? && id in previous && previous[id].polling.Some?
    then c.(polling := previous[id].polling) else c
  }

  function CarryPolling(loaded: map<int, Channel>, previous: map<int, Channel>): map<int, Channel> {
    map id | id in loaded :: Carried(loaded[id], id, previous)
  }

  function RemoveFirst(ids: seq<int>, id: int): seq<int> {
    if ids == [] then [] else if ids[0] == id then ids[1..] else [ids[0]] + RemoveFirst(ids[1..], id)
  }

  function RemoveFromModels(models: map<string, seq<int>>, id: int): map<string, seq<int>> {
    map m | m in models :: RemoveFirst(models[m], id)
  }

  function RemoveEverywhere(index: Index, id: int): Index {
    map g | g in index :: RemoveFromModels(index[g], id)
  }

  /** The two package variables. */
  datatype Cache = Cache(index: Index, idm: map<int, Channel>)

  function UpdateStatus(cache: Cache, id: int, status: int): Cache {
    var idm := if id in cache.idm then cache.idm[id := cache.idm[id].(status := status)] else cache.idm;
    Cache(if status != STATUS_ENABLED then RemoveEverywhere(cache.index, id) else cache.index, idm)
  }

  /** Every list holds each id as often as the rows append it. */
  ghost predicate Counted(index: Index, rows: seq<Channel>) {
    forall g, m, id :: multiset(ListAt(index, g, m))[id] == Occurrences(rows, g, m, id)
  }

  /** What InitChannelCache may leave, given the rows and the table it read. */
  ghost predicate Initialised(after: Cache, before: Cache, rows: seq<Channel>, table: Table) {
    && after.idm == CarryPolling(IdMap(rows), before.idm)
    && after.index.Keys == TableGroups(table)
    && (forall g, m :: SortedDesc(ListAt(after.index, g, m), after.idm))
    && Counted(after.index, rows)
  }

  lemma {:induction false} OccurrencesStep(rows: seq<Channel>, i: nat, group: string, model: string, id: int)
    requires i < |rows|
    ensures Occurrences(rows[..i + 1], group, model, id) ==
              Occurrences(rows[..i], group, model, id) + if rows[i].id == id then Times(rows[i], group, model) else 0
  {
    assert rows[..i + 1][..i] == rows[..i];
  }

  lemma {:induction false} CountEnabled(index: Index, base: Index, rows: seq<Channel>, i: nat)
    requires i < |rows| && rows[i].status == STATUS_ENABLED && Counted(base, rows[..i])
    requires Appended(index, base, RawPairs(Split(rows[i].group, ','), Split(rows[i].models, ',')), rows[i].id)
    ensures Counted(index, rows[..i + 1])
  {
    forall g, m, id ensures multiset(ListAt(index, g, m))[id] == Occurrences(rows[..i + 1], g, m, id) {
      OccurrencesStep(rows, i, g, m, id);
    }
  }

  lemma {:induction false} CountDisabled(base: Index, rows: seq<Channel>, i: nat)
    requires i < |rows| && rows[i].status != STATUS_ENABLED && Counted(base, rows[..i])
    ensures Counted(base, rows[..i + 1])
  {
    forall g, m, id ensures multiset(ListAt(base, g, m))[id] == Occurrences(rows[..i + 1], g, m, id) {
      OccurrencesStep(rows, i, g, m, id);
    }
  }

  function SortModels(models: map<string, seq<int>>, idm: map<int, Channel>): map<string, seq<int>> {
    map m | m in models :: SortDesc(models[m], idm)
  }

  function SortIndex(index: Index, idm: map<int, Channel>): Index {
    map g | g in index :: SortModels(index[g], idm)
  }

  /** The sorting loop over one group's models, in any order. */
  method SortListsOfModels(models: map<string, seq<int>>, idm: map<int, Channel>)
    returns (ordered: map<string, seq<int>>)
    ensures ordered == SortModels(models, idm)
  {
    hide SortDesc;
    ordered := models;
    var remaining := models.Keys;
    while remaining != {}
      invariant remaining <= models.Keys == ordered.Keys
      invariant forall m :: m in models ==>
                  ordered[m] == if m in remaining then models[m] else SortDesc(models[m], idm)
      decreases |remaining|
    {
      var model := AnyOf(remaining);
      ordered := ordered[model := SortDesc(ordered[model], idm)];
      remaining := remaining - {model};
    }
  }

  /** The sorting loop over the groups, in any order. */
  method SortLists(index: Index, idm: map<int, Channel>) returns (ordered: Index)
    ensures ordered == SortIndex(index, idm)
  {
    hide SortModels;
    ordered := index;
    var remaining := index.Keys;
    while remaining != {}
      invariant remaining <= index.Keys == ordered.Keys
      invariant forall g :: g in index ==>
                  ordered[g] == if g in remaining then index[g] else SortModels(index[g], idm)
      decreases |remaining|
    {
      var group := AnyOf(remaining);
      var models := SortListsOfModels(ordered[group], idm);
      ordered := ordered[group := models];
      remaining := remaining - {group};
    }
  }

  /** The loop that carries polling positions over, the channels in any order. */
  method CarryPositions(loaded: map<int, Channel>, previous: map<int, Channel>) returns (carried: map<int, Channel>)
    ensures carried == CarryPolling(loaded, previous)
  {
    carried := loaded;
    var remaining := loaded.Keys;
    while remaining != {}
      invariant remaining <= loaded.Keys == carried.Keys
      invariant forall id :: id in loaded ==>
                  carried[id] == if id in remaining then loaded[id] else Carried(loaded[id], id, previous)
      decreases |remaining|
    {
      var id := AnyOf(remaining);
      if carried[id].polling.Some? && id in previous && previous[id].polling.Some? {
        carried := carried[id := carried[id].(polling := previous[id].polling)];
      }
      remaining := remaining - {id};
    }
    SameEntries(carried, CarryPolling(loaded, previous));
  }

  /** Priorities stay what they were, so a sorted list stays sorted. */
  lemma {:induction false} CarryKeepsOrder(ids: seq<int>, loaded: map<int, Channel>, previous: map<int, Channel>)
    requires SortedDesc(ids, loaded)
    ensures SortedDesc(ids, CarryPolling(loaded, previous))
  {
    forall id ensures PriorityOf(CarryPolling(loaded, previous), id) == PriorityOf(loaded, id) {
    }
  }

  lemma {:induction false} SameEntries<K, V>(a: map<K, V>, b: map<K, V>)
    requires a.Keys == b.Keys && forall k :: k in a ==> a[k] == b[k]
    ensures a == b
  {
    forall k ensures k in a <==> k in b { assert k in a.Keys <==> k in b.Keys; }
  }

  /** The loop of InitChannelCache over the rows; `ok` is false on a panic. */
  method BuildIndex(rows: seq<Channel>, groups: set<string>) returns (ok: bool, index: Index, idm: map<int, Channel>)
    ensures ok <==> GroupsKnown(rows, groups)
    ensures ok ==> index.Keys == groups && Counted(index, rows) && idm == IdMap(rows)
  {
    hide Counted, IdMap, Split, Appended;
    index := map g | g in groups :: map[];
    idm := map[];
    StartCounting(index, rows);
    for i := 0 to |rows|
      invariant index.Keys == groups
      invariant GroupsKnown(rows[..i], groups)
      invariant Counted(index, rows[..i])
      invariant idm == IdMap(rows[..i])
    {
      IdMapStep(rows, i);
      idm := idm[rows[i].id := rows[i]];
      assert rows[..i + 1] == rows[..i] + [rows[i]];
      if rows[i].status == STATUS_ENABLED {
        var base := index;
        assert rows[i] in rows;
        ok, index := AddChannel(base, rows[i]);
        if !ok {
          return;
        }
        SameKeys(index, base, RawPairs(Split(rows[i].group, ','), Split(rows[i].models, ',')), rows[i].id);
        CountEnabled(index, base, rows, i);
      } else {
        CountDisabled(index, rows, i);
      }
    }
    assert rows[..|rows|] == rows;
    ok := true;
  }

  lemma {:induction false} SameKeys(index: Index, base: Index, done: seq<Pair>, id: int)
    requires Appended(index, base, done, id)
    ensures index.Keys == base.Keys
  {
  }

  // ---------------------------------------------------------------------
  // Choosing a channel
  // ---------------------------------------------------------------------

  datatype LookupError = InconsistentDatabase

  function InsertLevel(levels: seq<int>, p: int): seq<int> {
    if levels == [] || p > levels[0] then [p] + levels
    else if p == levels[0] then levels
    else [levels[0]] + InsertLevel(levels[1..], p)
  }

  /** The distinct priorities of some channels, highest first. */
  function LevelsOf(ids: seq<int>, idm: map<int, Channel>): seq<int> {
    if ids == [] then [] else InsertLevel(LevelsOf(ids[1..], idm), PriorityOf(idm, ids[0]))
  }

  ghost predicate StrictlyDescending(levels: seq<int>) {
    forall i, j :: 0 <= i < j < |levels| ==> levels[i] > levels[j]
  }

  lemma {:induction false} InsertLevelSound(levels: seq<int>, p: int)
    requires StrictlyDescending(levels)
    ensures StrictlyDescending(InsertLevel(levels, p)) && InsertLevel(levels, p) != []
    ensures forall q :: q in InsertLevel(levels, p) <==> q in levels || q == p
    ensures InsertLevel(levels, p)[0] == if levels == [] || p > levels[0] then p else levels[0]
  {
    if levels != [] && p < levels[0] {
      InsertLevelSound(levels[1..], p);
      assert levels == [levels[0]] + levels[1..];
    }
  }

  lemma {:induction false} LevelsSound(ids: seq<int>, idm: map<int, Channel>)
    ensures StrictlyDescending(LevelsOf(ids, idm))
    ensures forall q :: q in LevelsOf(ids, idm) <==> exists id :: id in ids && PriorityOf(idm, id) == q
    ensures ids != [] ==> LevelsOf(ids, idm) != []
  {
    if ids != [] {
      LevelsSound(ids[1..], idm);
      InsertLevelSound(LevelsOf(ids[1..], idm), PriorityOf(idm, ids[0]));
      assert ids == [ids[0]] + ids[1..];
      assert ids[0] in ids;
    }
  }

  /** The channels of one priority, in list order. */
  function AtLevel(ids: seq<int>, idm: map<int, Channel>, level: int): seq<int> {
    if ids == [] then []
    else AtLevel(ids[..|ids| - 1], idm, level)
         + if PriorityOf(idm, ids[|ids| - 1]) == level then [ids[|ids| - 1]] else []
  }

  lemma {:induction false} AtLevelStep(ids: seq<int>, i: nat, idm: map<int, Channel>, level: int)
    requires i < |ids|
    ensures AtLevel(ids[..i + 1], idm, level) ==
              AtLevel(ids[..i], idm, level) + if PriorityOf(idm, ids[i]) == level then [ids[i]] else []
    ensures forall id :: id in AtLevel(ids[..i], idm, level) ==> id in ids
  {
    assert ids[..i + 1][..i] == ids[..i];
    AtLevelSound(ids[..i], idm, level);
  }

  lemma {:induction false} AtLevelSound(ids: seq<int>, idm: map<int, Channel>, level: int)
    ensures forall id :: id in AtLevel(ids, idm, level) <==> id in ids && PriorityOf(idm, id) == level
    ensures forall id :: multiset(AtLevel(ids, idm, level))[id] ==
                         if PriorityOf(idm, id) == level then multiset(ids)[id] else 0
  {
    if ids != [] {
      AtLevelSound(ids[..|ids| - 1], idm, level);
      assert ids == ids[..|ids| - 1] + [ids[|ids| - 1]];
    }
  }

  lemma {:induction false} LevelHasTargets(ids: seq<int>, idm: map<int, Channel>, k: nat)
    requires k < |LevelsOf(ids, idm)|
    ensures AtLevel(ids, idm, LevelsOf(ids, idm)[k]) != []
  {
    var level := LevelsOf(ids, idm)[k];
    LevelsSound(ids, idm);
    assert level in LevelsOf(ids, idm);
    AtLevelSound(ids, idm, level);
    var id :| id in ids && PriorityOf(idm, id) == level;
    assert id in AtLevel(ids, idm, level);
  }

  function WeightsOf(ids: seq<int>, idm: map<int, Channel>): (ws: seq<nat>)
    ensures |ws| == |ids|
    ensures forall i :: 0 <= i < |ids| && ids[i] in idm ==> ws[i] == idm[ids[i]].weight
  {
    if ids == [] then []
    else [if ids[0] in idm then idm[ids[0]].weight else 0] + WeightsOf(ids[1..], idm)
  }

  lemma {:induction false} NoTargets(idm: map<int, Channel>, level: int)
    ensures AtLevel([], idm, level) == [] && WeightsOf([], idm) == []
  {
  }

  lemma {:induction false} WeightsOfSnoc(ids: seq<int>, id: int, idm: map<int, Channel>)
    requires id in idm
    ensures WeightsOf(ids + [id], idm) == WeightsOf(ids, idm) + [idm[id].weight]
  {
    if ids == [] {
      assert ids + [id] == [id];
    } else {
      WeightsOfSnoc(ids[1..], id, idm);
      assert (ids + [id])[1..] == ids[1..] + [id];
    }
  }

  /** A channel the smoothed choice can return: it has the priority the retry
      maps to, among the distinct priorities of the list, and the draw lands on
      its stretch of the effective weights.  A single candidate is returned
      without a draw. */
  ghost predicate Chosen(ids: seq<int>, idm: map<int, Channel>, retry: int, retryTimes: int, random: nat, c: Channel) {
    var levels := LevelsOf(ids, idm);
    levels != [] &&
    var targets := AtLevel(ids, idm, levels[RetrySchedule.MapRetryToPriorityIndex(retry, |levels|, retryTimes + 1)]);
    targets != [] &&
    var weights := WeightsOf(targets, idm);
    WeightedPick.TotalWeight(weights) > 0 &&
    exists i :: 0 <= i < |targets| && targets[i] in idm && c == idm[targets[i]]
                && WeightedPick.LandsOn(WeightedPick.Smoothed(weights), random % WeightedPick.TotalWeight(weights), i)
  }

  /** The answer over a list that is not empty: an error when some of it is not
      in the id map, and otherwise a channel the choice can return. */
  ghost predicate AnsweredFrom(ids: seq<int>, idm: map<int, Channel>, retry: int, retryTimes: int, random: nat,
                               r: Result<Option<Channel>, LookupError>)
  {
    if exists id :: id in ids && id !in idm then r == Err(InconsistentDatabase)
    else r.Ok? && r.value.Some? && Chosen(ids, idm, retry, retryTimes, random, r.value.value)
  }

  /** With one candidate the direct return is what the draw would have chosen. */
  lemma {:induction false} SingleChosen(ids: seq<int>, idm: map<int, Channel>, retry: int, retryTimes: int, random: nat)
    requires |ids| == 1 && ids[0] in idm
    ensures Chosen(ids, idm, retry, retryTimes, random, idm[ids[0]])
  {
    var p := idm[ids[0]].priority;
    assert LevelsOf(ids, idm) == [p] by { assert LevelsOf(ids[1..], idm) == []; }
    assert AtLevel(ids, idm, p) == ids by { assert ids[..0] == []; }
    var weights := WeightsOf(ids, idm);
    WeightedPick.TotalIsSumOfEffective(weights);
    var es := WeightedPick.Smoothed(weights);
    WeightedPick.PrefixZero(es);
    WeightedPick.PrefixMonotone(es, 1, 1);
    assert WeightedPick.LandsOn(es, random % WeightedPick.TotalWeight(weights), 0);
  }

  lemma {:induction false} RemoveFirstAt(ids: seq<int>, id: int, i: nat)
    requires i < |ids| && ids[i] == id && id !in ids[..i]
    ensures RemoveFirst(ids, id) == ids[..i] + ids[i + 1..]
  {
    if i > 0 {
      assert ids[..i][0] == ids[0] && ids[1..][..i - 1] == ids[..i][1..];
      RemoveFirstAt(ids[1..], id, i - 1);
      assert [ids[0]] + ids[1..][..i - 1] == ids[..i];
    }
  }

  lemma {:induction false} RemoveFirstAbsent(ids: seq<int>, id: int)
    requires id !in ids
    ensures RemoveFirst(ids, id) == ids
  {
    if ids != [] {
      var first := ids[0];
      assert first in ids;
      RemoveFirstAbsent(ids[1..], id);
    }
  }

  /** The innermost loop: splice the channel out of the slice and stop. */
  method SpliceOut(ids: seq<int>, id: int) returns (rest: seq<int>)
    ensures rest == RemoveFirst(ids, id)
  {
    for i := 0 to |ids|
      invariant id !in ids[..i]
    {
      var channelId := ids[i];
      if channelId == id {
        RemoveFirstAt(ids, id, i);
        return ids[..i] + ids[i + 1..];
      }
      assert ids[..i + 1] == ids[..i] + [channelId];
    }
    assert ids[..|ids|] == ids;
    RemoveFirstAbsent(ids, id);
    return ids;
  }

  /** The loop over one group's models, in any order. */
  method SpliceOutOfModels(models: map<string, seq<int>>, id: int) returns (rest: map<string, seq<int>>)
    ensures rest == RemoveFromModels(models, id)
  {
    hide RemoveFirst;
    rest := models;
    var remaining := models.Keys;
    while remaining != {}
      invariant remaining <= models.Keys == rest.Keys
      invariant forall m :: m in models ==>
                  rest[m] == if m in remaining then models[m] else RemoveFirst(models[m], id)
      decreases |remaining|
    {
      var model := AnyOf(remaining);
      var spliced := SpliceOut(models[model], id);
      rest := rest[model := spliced];
      remaining := remaining - {model};
    }
  }

  class ChannelCache {
    var group2model2channels: Index
    var channelsIDM: map<int, Channel>

    ghost function View(): Cache
      reads this
    {
      Cache(group2model2channels, channelsIDM)
    }

    constructor ()
      ensures View() == Cache(map[], map[])
    {
      group2model2channels, channelsIDM := map[], map[];
    }

    /** The second half of InitChannelCache: sort, carry the polling positions of
        the cache as it is now over, and install, whatever happened to the cache
        since the rows and the abilities were read. */
    method Install(index: Index, idm: map<int, Channel>, ghost rows: seq<Channel>, ghost abilities: Table)
      requires index.Keys == TableGroups(abilities) && Counted(index, rows) && idm == IdMap(rows)
      modifies this
      ensures Initialised(View(), old(View()), rows, abilities)
    {
      hide Counted, IdMap, SortIndex, CarryPolling, SortedDesc, ListAt;
      SortingKeepsCounts(index, idm, rows);
      var ordered := SortLists(index, idm);
      var carried := CarryPositions(idm, channelsIDM);
      forall g, m ensures SortedDesc(ListAt(ordered, g, m), carried) {
        CarryKeepsOrder(ListAt(ordered, g, m), idm, channelsIDM);
      }
      group2model2channels, channelsIDM := ordered, carried;
    }

    /** InitChannelCache over the rows and the abilities it read, with nothing in
        between.  `ok` is false when it panics, which leaves the cache as it was. */
    method InitChannelCache(rows: seq<Channel>, abilities: Table) returns (ok: bool)
      modifies this
      ensures ok <==> GroupsKnown(rows, TableGroups(abilities))
      ensures ok ==> Initialised(View(), old(View()), rows, abilities)
      ensures !ok ==> View() == old(View())
    {
      var index: Index, idm: map<int, Channel>;
      ok, index, idm := BuildIndex(rows, TableGroups(abilities));
      if ok {
        Install(index, idm, rows, abilities);
      }
    }

    /** The loop over the groups, in any order. */
    method DeleteFromIndex(id: int)
      modifies this`group2model2channels
      ensures group2model2channels == RemoveEverywhere(old(group2model2channels), id)
    {
      hide RemoveFromModels;
      ghost var was := group2model2channels;
      var remaining := group2model2channels.Keys;
      while remaining != {}
        invariant remaining <= was.Keys == group2model2channels.Keys
        invariant forall g :: g in was ==>
                    group2model2channels[g] == if g in remaining then was[g] else RemoveFromModels(was[g], id)
        decreases |remaining|
      {
        var group := AnyOf(remaining);
        var rest := SpliceOutOfModels(group2model2channels[group], id);
        group2model2channels := group2model2channels[group := rest];
        remaining := remaining - {group};
      }
    }

    method CacheUpdateChannelStatus(id: int, status: int)
      modifies this
      ensures View() == UpdateStatus(old(View()), id, status)
      ensures channelsIDM == if id in old(channelsIDM)
                then old(channelsIDM)[id := old(channelsIDM)[id].(status := status)] else old(channelsIDM)
      ensures group2model2channels.Keys == old(group2model2channels).Keys
      ensures forall g, m :: ListAt(group2model2channels, g, m) ==
                             if status == STATUS_ENABLED then ListAt(old(group2model2channels), g, m)
                             else RemoveFirst(ListAt(old(group2model2channels), g, m), id)
    {
      if id in channelsIDM {
        channelsIDM := channelsIDM[id := channelsIDM[id].(status := status)];
      }
      if status != STATUS_ENABLED {
        DeleteFromIndex(id);
      }
    }

    /** `normalize` is FormatMatchingModelName; `random` is what the random
        source returns, reduced to the range as rand.Intn does. */
    method GetRandomSatisfiedChannel(
      group: string, model: string, retry: int, retryTimes: int, random: nat, normalize: string -> string)
      returns (r: Result<Option<Channel>, LookupError>)
      ensures var exact := ListAt(group2model2channels, group, model);
              var other := ListAt(group2model2channels, group, normalize(model));
              && (r == Ok(None) <==> exact == [] && other == [])
              && (exact != [] ==> AnsweredFrom(exact, channelsIDM, retry, retryTimes, random, r))
              && (exact == [] && other != [] ==> AnsweredFrom(other, channelsIDM, retry, retryTimes, random, r))
    {
      var ids := ListAt(group2model2channels, group, model);
      if |ids| == 0 {
        ids := ListAt(group2model2channels, group, normalize(model));
      }
      if |ids| == 0 {
        return Ok(None);
      }
      r := ChooseFrom(ids, retry, retryTimes, random);
    }

    /** The rest of GetRandomSatisfiedChannel, over the list it found. */
    method ChooseFrom(ids: seq<int>, retry: int, retryTimes: int, random: nat)
      returns (r: Result<Option<Channel>, LookupError>)
      requires ids != []
      ensures AnsweredFrom(ids, channelsIDM, retry, retryTimes, random, r)
    {
      hide LevelsOf, AtLevel, WeightsOf;
      if |ids| == 1 {
        var only := ids[0];
        assert only in ids;
        if only !in channelsIDM {
          return Err(InconsistentDatabase);
        }
        SingleChosen(ids, channelsIDM, retry, retryTimes, random);
        return Ok(Some(channelsIDM[only]));
      }
      for i := 0 to |ids|
        invariant forall id :: id in ids[..i] ==> id in channelsIDM
      {
        var id := ids[i];
        assert id in ids;
        if id !in channelsIDM {
          return Err(InconsistentDatabase);
        }
        assert ids[..i + 1] == ids[..i] + [id];
      }
      assert ids[..|ids|] == ids;
      var levels := LevelsOf(ids, channelsIDM);
      LevelsSound(ids, channelsIDM);
      var level := levels[RetrySchedule.MapRetryToPriorityIndex(retry, |levels|, retryTimes + 1)];
      NoTargets(channelsIDM, level);
      assert ids[..0] == [];
      var targets: seq<int> := [];
      var weights: seq<nat> := [];
      for i := 0 to |ids|
        invariant targets == AtLevel(ids[..i], channelsIDM, level)
        invariant weights == WeightsOf(targets, channelsIDM)
      {
        AtLevelStep(ids, i, channelsIDM, level);
        if channelsIDM[ids[i]].priority == level {
          WeightsOfSnoc(targets, ids[i], channelsIDM);
          targets := targets + [ids[i]];
          weights := weights + [channelsIDM[ids[i]].weight];
        }
      }
      assert ids[..|ids|] == ids;
      LevelHasTargets(ids, channelsIDM, RetrySchedule.MapRetryToPriorityIndex(retry, |levels|, retryTimes + 1));
      AtLevelSound(ids, channelsIDM, level);
      WeightedPick.TotalIsSumOfEffective(weights);
      var total := WeightedPick.TotalWeight(weights);
      var found, index := WeightedPick.Pick(weights, WeightedPick.SmoothingFactor(weights),
                                            WeightedPick.SmoothingAdjustment(weights), random % total);
      assert found;
      var target := targets[index];
      assert target in targets;
      r := Ok(Some(channelsIDM[target]));
    }
  }

  lemma {:induction false} IdMapStep(rows: seq<Channel>, i: nat)
    requires i < |rows|
    ensures IdMap(rows[..i + 1]) == IdMap(rows[..i])[rows[i].id := rows[i]]
  {
    assert rows[..i + 1][..i] == rows[..i];
  }

  lemma {:induction false} StartCounting(index: Index, rows: seq<Channel>)
    requires forall g :: g in index ==> index[g] == map[]
    ensures Counted(index, rows[..0]) && IdMap(rows[..0]) == map[]
  {
    assert rows[..0] == [];
  }

  lemma {:induction false} SortingKeepsCounts(unsorted: Index, idm: map<int, Channel>, rows: seq<Channel>)
    requires Counted(unsorted, rows)
    ensures var index := SortIndex(unsorted, idm);
            index.Keys == unsorted.Keys && Counted(index, rows) && forall g, m :: SortedDesc(ListAt(index, g, m), idm)
  {
    var index := SortIndex(unsorted, idm);
    forall g, m ensures SortOf(ListAt(index, g, m), ListAt(unsorted, g, m), idm) {
      SortDescSorts(ListAt(unsorted, g, m), idm);
      assert ListAt(index, g, m) == SortDesc(ListAt(unsorted, g, m), idm);
    }
  }

  // ---------------------------------------------------------------------
  // The index agrees with the abilities table
  // ---------------------------------------------------------------------

  lemma {:induction false} RawGroupCount(group: string, models: seq<string>, g: string, m: string)
    ensures multiset(RawOfGroup(group, models))[Pair(g, m)] == if g == group then multiset(models)[m] else 0
  {
    if models != [] {
      var init, last := models[..|models| - 1], models[|models| - 1];
      RawGroupCount(group, init, g, m);
      assert models == init + [last];
      SnocCount(init, last, m);
      SnocCount(RawOfGroup(group, init), Pair(group, last), Pair(g, m));
      hide RawOfGroup;
    }
  }

  /** A channel is appended once per occurrence of the group times once per
      occurrence of the model. */
  lemma {:induction false} RawCount(groups: seq<string>, models: seq<string>, g: string, m: string)
    ensures multiset(RawPairs(groups, models))[Pair(g, m)] == multiset(groups)[g] * multiset(models)[m]
  {
    hide RawOfGroup;
    if groups != [] {
      var init := groups[..|groups| - 1];
      var last := groups[|groups| - 1];
      var k := multiset(models)[m];
      RawCount(init, models, g, m);
      RawGroupCount(last, models, g, m);
      SnocCount(init, last, g);
      assert groups == init + [last];
      assert multiset(RawPairs(groups, models))[Pair(g, m)] == multiset(init)[g] * k + if g == last then k else 0;
      WeightedPick.Distribute(multiset(init)[g], 1, k);
    }
  }

  lemma {:induction false} SnocCount<T>(xs: seq<T>, last: T, x: T)
    ensures multiset(xs + [last])[x] == multiset(xs)[x] + if x == last then 1 else 0
  {
  }

  ghost predicate Distinct(xs: seq<string>) {
    forall i, j :: 0 <= i < j < |xs| ==> xs[i] != xs[j]
  }

  lemma {:induction false} DistinctMultiplicity(xs: seq<string>)
    ensures Distinct(xs) <==> forall x :: multiset(xs)[x] <= 1
  {
    if xs != [] {
      var init := xs[..|xs| - 1];
      var last := xs[|xs| - 1];
      DistinctMultiplicity(init);
      assert xs == init + [last];
      if Distinct(xs) {
        assert Distinct(init);
        assert last !in init;
        assert last !in multiset(init);
      } else if Distinct(init) {
        assert last in init;
        assert multiset(xs)[last] >= 2;
      } else {
        var x :| multiset(init)[x] > 1;
        assert multiset(xs)[x] > 1;
      }
    }
  }

  /** The cache holds an enabled channel exactly where the abilities table has
      a row for it, and once. */
  ghost predicate Agrees(c: Channel) {
    forall g, m :: Times(c, g, m) == if c.status == STATUS_ENABLED && Pair(g, m) in RowsOf(c) then 1 else 0
  }

  /** Group names without padding, no repeated group or model, and no two
      pairs that collide on the row key. */
  ghost predicate Clean(c: Channel) {
    && (forall g :: g in Split(c.group, ',') ==> TrimSpace(g) == g)
    && Distinct(Split(c.group, ','))
    && Distinct(Split(c.models, ','))
    && KeysDistinguish(PairsOf(c))
  }

  lemma {:induction false} CleanRows(c: Channel, g: string, m: string)
    requires Clean(c)
    ensures Pair(g, m) in RowsOf(c) <==> g in Split(c.group, ',') && m in Split(c.models, ',')
  {
    PairsComplete(Split(c.models, ','), Split(c.group, ','));
    RowsAreCrossProduct(c);
  }

  lemma {:induction false} ZeroOrOne(xs: seq<string>, x: string)
    requires Distinct(xs)
    ensures multiset(xs)[x] == if x in xs then 1 else 0
  {
    DistinctMultiplicity(xs);
    assert x in xs <==> x in multiset(xs);
  }

  lemma {:induction false} CleanAgrees(c: Channel)
    requires c.status == STATUS_ENABLED && Clean(c)
    ensures Agrees(c)
  {
    var groups := Split(c.group, ',');
    var models := Split(c.models, ',');
    forall g, m ensures Times(c, g, m) == if c.status == STATUS_ENABLED && Pair(g, m) in RowsOf(c) then 1 else 0 {
      hide Split, RowsOf, RawPairs;
      RawCount(groups, models, g, m);
      ZeroOrOne(groups, g);
      ZeroOrOne(models, m);
      CleanRows(c, g, m);
    }
  }

  lemma {:induction false} AgreesUnpadded(c: Channel, g: string, m: string)
    requires c.status == STATUS_ENABLED && Agrees(c) && g in Split(c.group, ',') && m in Split(c.models, ',')
    ensures TrimSpace(g) == g && multiset(Split(c.group, ','))[g] == 1 && multiset(Split(c.models, ','))[m] == 1
    ensures Pair(g, m) in RowsOf(c)
  {
    hide RawPairs, Split, Dedup, Pairs;
    var groups := Split(c.group, ',');
    var models := Split(c.models, ',');
    RawCount(groups, models, g, m);
    assert multiset(groups)[g] >= 1 && multiset(models)[m] >= 1;
    ProductAtMostOne(multiset(groups)[g], multiset(models)[m]);
    assert Times(c, g, m) == if Pair(g, m) in RowsOf(c) then 1 else 0;
    DedupSubset(PairsOf(c));
    PairsComplete(models, groups);
  }

  lemma {:induction false} ProductAtMostOne(a: nat, b: nat)
    requires a >= 1 && b >= 1
    ensures a * b >= a && a * b >= b
  {
  }

  lemma {:induction false} AgreesClean(c: Channel)
    requires c.status == STATUS_ENABLED && Agrees(c)
    ensures Clean(c)
  {
    var groups := Split(c.group, ',');
    var models := Split(c.models, ',');
    assert groups[0] in groups && models[0] in models;
    forall g | g in groups ensures TrimSpace(g) == g && multiset(groups)[g] <= 1 { AgreesUnpadded(c, g, models[0]); }
    forall m | m in models ensures multiset(models)[m] <= 1 { AgreesUnpadded(c, groups[0], m); }
    assert forall g :: g !in groups ==> multiset(groups)[g] == 0;
    assert forall m :: m !in models ==> multiset(models)[m] == 0;
    DistinctMultiplicity(groups);
    DistinctMultiplicity(models);
    PairsComplete(models, groups);
    DedupSubset(PairsOf(c));
    forall p | p in PairsOf(c) ensures p in RowsOf(c) { AgreesUnpadded(c, p.group, p.model); }
    RowsAreCrossProduct(c);
  }

  lemma {:induction false} OccurrencesOf(rows: seq<Channel>, g: string, m: string, id: int)
    requires DistinctIds(rows)
    ensures forall c :: c in rows && c.id == id ==> Occurrences(rows, g, m, id) == Times(c, g, m)
    ensures (forall c :: c in rows ==> c.id != id) ==> Occurrences(rows, g, m, id) == 0
  {
    hide Times;
    if rows != [] {
      var init := rows[..|rows| - 1];
      var last := rows[|rows| - 1];
      OccurrencesOf(init, g, m, id);
      assert rows == init + [last];
      assert forall c :: c in init ==> c.id != last.id;
    }
  }

  ghost predicate EnabledRow(table: Table, g: string, m: string, id: int) {
    AbilityKey(g, m, id) in table && table[AbilityKey(g, m, id)]
  }

  /** The index lists exactly the channels with an enabled ability row, each
      once. */
  ghost predicate Matches(index: Index, table: Table) {
    forall g, m, id :: multiset(ListAt(index, g, m))[id] == if EnabledRow(table, g, m, id) then 1 else 0
  }

  lemma {:induction false} RowAndTimes(rows: seq<Channel>, c: Channel, g: string, m: string)
    requires DistinctIds(rows) && c in rows
    ensures EnabledRow(Rebuild(rows), g, m, c.id) <==> c.status == STATUS_ENABLED && Pair(g, m) in RowsOf(c)
  {
    hide RowsOf, Rebuild;
    RebuildRows(rows);
    assert HasRowsOf(Rebuild(rows), c);
    assert AbilityKey(g, m, c.id).channelId == c.id;
  }

  /** After InitChannelCache the index matches the abilities derived from the
      same channels exactly when every enabled channel's lists are clean. */
  lemma {:induction false} IndexMatchesAbilities(after: Cache, before: Cache, rows: seq<Channel>)
    requires DistinctIds(rows) && Initialised(after, before, rows, Rebuild(rows))
    ensures Matches(after.index, Rebuild(rows)) <==> forall c :: c in rows && c.status == STATUS_ENABLED ==> Clean(c)
  {
    hide Times, RowsOf, Rebuild, Clean, EnabledRow;
    var table := Rebuild(rows);
    if forall c :: c in rows && c.status == STATUS_ENABLED ==> Clean(c) {
      forall g, m, id ensures multiset(ListAt(after.index, g, m))[id] == if EnabledRow(table, g, m, id) then 1 else 0 {
        CleanEntry(rows, g, m, id);
      }
    }
    if Matches(after.index, table) {
      forall c | c in rows && c.status == STATUS_ENABLED ensures Clean(c) {
        forall g, m ensures Times(c, g, m) == if c.status == STATUS_ENABLED && Pair(g, m) in RowsOf(c) then 1 else 0 {
          OccurrencesOf(rows, g, m, c.id);
          RowAndTimes(rows, c, g, m);
        }
        AgreesClean(c);
      }
    }
  }

  lemma {:induction false} CleanEntry(rows: seq<Channel>, g: string, m: string, id: int)
    requires DistinctIds(rows) && forall c :: c in rows && c.status == STATUS_ENABLED ==> Clean(c)
    ensures Occurrences(rows, g, m, id) == if EnabledRow(Rebuild(rows), g, m, id) then 1 else 0
  {
    hide Clean, Rebuild, RowsOf, Occurrences;
    OccurrencesOf(rows, g, m, id);
    if c :| c in rows && c.id == id {
      RowAndTimes(rows, c, g, m);
      if c.status == STATUS_ENABLED { CleanAgrees(c); }
    } else {
      RebuildIds(rows);
    }
  }

  /** Clean rows never make InitChannelCache panic: every group they name has
      an ability row. */
  lemma {:induction false} CleanRowsDoNotPanic(rows: seq<Channel>)
    requires DistinctIds(rows) && forall c :: c in rows && c.status == STATUS_ENABLED ==> Clean(c)
    ensures GroupsKnown(rows, TableGroups(Rebuild(rows)))
  {
    forall c, g | c in rows && c.status == STATUS_ENABLED && g in Split(c.group, ',')
      ensures g in TableGroups(Rebuild(rows))
    {
      var m := Split(c.models, ',')[0];
      CleanAgrees(c);
      AgreesUnpadded(c, g, m);
      RowAndTimes(rows, c, g, m);
      assert AbilityKey(g, m, c.id) in Rebuild(rows);
      assert AbilityKey(g, m, c.id).group == g;
    }
  }

  /** The build over a rebuilt table does not panic exactly when every group an
      enabled channel names, as written, is the group of some channel's row. */
  lemma {:induction false} PanicExact(rows: seq<Channel>)
    requires DistinctIds(rows)
    ensures GroupsKnown(rows, TableGroups(Rebuild(rows))) <==>
            forall c, g :: c in rows && c.status == STATUS_ENABLED && g in Split(c.group, ',') ==>
              RowInGroup(rows, g)
  {
    hide Split, Rebuild, RowsOf;
    forall g ensures g in TableGroups(Rebuild(rows)) <==> RowInGroup(rows, g) {
      GroupOfTable(rows, g);
    }
  }

  ghost predicate RowInGroup(rows: seq<Channel>, g: string) {
    exists d, p :: d in rows && p in RowsOf(d) && p.group == g
  }

  lemma {:induction false} GroupOfTable(rows: seq<Channel>, g: string)
    requires DistinctIds(rows)
    ensures g in TableGroups(Rebuild(rows)) <==> RowInGroup(rows, g)
  {
    RebuildRows(rows);
    RebuildIds(rows);
    hide RowsOf, Rebuild;
    if g in TableGroups(Rebuild(rows)) {
      var k :| k in Rebuild(rows) && k.group == g;
      var d :| d in rows && d.id == k.channelId;
      assert HasRowsOf(Rebuild(rows), d);
      assert Pair(k.group, k.model) in RowsOf(d);
    }
    if RowInGroup(rows, g) {
      var d, p :| d in rows && p in RowsOf(d) && p.group == g;
      assert HasRowsOf(Rebuild(rows), d);
      var k := AbilityKey(p.group, p.model, d.id);
      assert Pair(k.group, k.model) == p;
      assert k in Rebuild(rows) && k.group == g;
    }
  }

  /** Every row's group is trimmed. */
  lemma {:induction false} RowGroupsTrimmed(d: Channel, p: Pair)
    requires p in RowsOf(d)
    ensures TrimSpace(p.group) == p.group
  {
    hide TrimSpace;
    DedupSubset(PairsOf(d));
    PairsComplete(Split(d.models, ','), Split(d.group, ','));
    var g :| g in Split(d.group, ',') && TrimSpace(g) == p.group;
    TrimmedTwice(g);
  }

  lemma {:induction false} TrimmedTwice(g: string)
    ensures TrimSpace(TrimSpace(g)) == TrimSpace(g)
  {
  }

  /** An enabled channel with groups "a, b": its row is in group "b", its list
      would be in group " b", and the build panics. */
  lemma {:induction false} PaddedGroupPanics(c: Channel)
    requires c.status == STATUS_ENABLED && c.group == "a" + "," + " b"
    ensures !GroupsKnown([c], TableGroups(Rebuild([c])))
  {
    SplitTwo("a", " b", ',');
    BlankFront();
    hide Split, TrimSpace, Rebuild, RowsOf;
    var groups := ["a", " b"];
    assert groups[1] in groups;
    PanicExact([c]);
    assert c in [c];
    if RowInGroup([c], " b") {
      var d, p :| d in [c] && p in RowsOf(d) && p.group == " b";
      RowGroupsTrimmed(d, p);
    }
  }

  lemma {:induction false} BlankFront()
    ensures TrimSpace(" b") != " b"
  {
    assert TrimSpace(" b") == TrimSpace(" b"[1..]);
    assert " b"[1..] == "b";
  }

  /** An enabled channel with models "m,m" is in its list twice, where the table
      has one row. */
  lemma {:induction false} RepeatedModelListedTwice(c: Channel)
    requires c.status == STATUS_ENABLED && c.group == "a" && c.models == "m" + "," + "m"
    ensures Times(c, "a", "m") == 2
  {
    SplitSingle("a", ',');
    SplitTwo("m", "m", ',');
    hide *;
    TimesOfRepeated(c, "a", "m");
  }

  lemma {:induction false} TimesOfRepeated(c: Channel, g: string, m: string)
    requires c.status == STATUS_ENABLED && Split(c.group, ',') == [g] && Split(c.models, ',') == [m, m]
    ensures Times(c, g, m) == 2
  {
    hide Split, RawPairs;
    RawCount([g], [m, m], g, m);
    SnocCount([m], m, m);
    assert [m] + [m] == [m, m];
  }

  // ---------------------------------------------------------------------
  // Runs of status updates
  // ---------------------------------------------------------------------

  /** What every run of status updates keeps. */
  ghost predicate Healthy(cache: Cache) {
    forall g, m ::
      var ids := ListAt(cache.index, g, m);
      && NoDuplicates(ids)
      && SortedDesc(ids, cache.idm)
      && forall id :: id in ids ==> id in cache.idm && cache.idm[id].status == STATUS_ENABLED
  }

  datatype StatusUpdate = StatusUpdate(id: int, status: int)

  function RunUpdates(cache: Cache, updates: seq<StatusUpdate>): Cache
    decreases |updates|
  {
    if updates == [] then cache
    else RunUpdates(UpdateStatus(cache, updates[0].id, updates[0].status), updates[1..])
  }

  function DisabledBy(updates: seq<StatusUpdate>): set<int> {
    set u | u in updates && u.status != STATUS_ENABLED :: u.id
  }

  /** The list without some ids, order kept. */
  function Without(ids: seq<int>, gone: set<int>): seq<int> {
    if ids == [] then []
    else if ids[0] in gone then Without(ids[1..], gone)
    else [ids[0]] + Without(ids[1..], gone)
  }

  lemma {:induction false} WithoutSound(ids: seq<int>, gone: set<int>)
    ensures forall id :: id in Without(ids, gone) <==> id in ids && id !in gone
    ensures NoDuplicates(ids) ==> NoDuplicates(Without(ids, gone))
  {
    if ids != [] {
      WithoutSound(ids[1..], gone);
      assert ids == [ids[0]] + ids[1..];
    }
  }

  lemma {:induction false} WithoutSorted(ids: seq<int>, gone: set<int>, idm: map<int, Channel>)
    requires SortedDesc(ids, idm)
    ensures SortedDesc(Without(ids, gone), idm)
  {
    if ids != [] {
      WithoutSorted(ids[1..], gone, idm);
      WithoutSound(ids[1..], gone);
      var rest := Without(ids[1..], gone);
      if rest != [] {
        assert rest[0] in rest;
        var j :| 0 <= j < |ids[1..]| && ids[1..][j] == rest[0];
        assert PriorityOf(idm, ids[0]) >= PriorityOf(idm, ids[j + 1]);
      }
      ConsSorted(ids[0], rest, idm);
    }
  }

  lemma {:induction false} WithoutNone(ids: seq<int>, gone: set<int>)
    requires forall id :: id in ids ==> id !in gone
    ensures Without(ids, gone) == ids
  {
    if ids != [] {
      var first := ids[0];
      assert first in ids && ids == [first] + ids[1..];
      WithoutNone(ids[1..], gone);
    }
  }

  lemma {:induction false} RemoveFirstIsWithout(ids: seq<int>, id: int)
    requires NoDuplicates(ids)
    ensures RemoveFirst(ids, id) == Without(ids, {id})
  {
    if ids != [] {
      if ids[0] == id {
        WithoutNone(ids[1..], {id});
      } else {
        RemoveFirstIsWithout(ids[1..], id);
      }
    }
  }

  lemma {:induction false} WithoutTwice(ids: seq<int>, a: set<int>, b: set<int>)
    ensures Without(Without(ids, a), b) == Without(ids, a + b)
  {
    if ids != [] {
      WithoutTwice(ids[1..], a, b);
      if ids[0] !in a {
        assert Without(ids, a)[1..] == Without(ids[1..], a);
      }
    }
  }

  lemma {:induction false} UpdateLists(cache: Cache, id: int, status: int, g: string, m: string)
    requires Healthy(cache)
    ensures ListAt(UpdateStatus(cache, id, status).index, g, m) ==
              Without(ListAt(cache.index, g, m), if status != STATUS_ENABLED then {id} else {})
  {
    var ids := ListAt(cache.index, g, m);
    if status != STATUS_ENABLED {
      RemoveFirstIsWithout(ids, id);
    } else {
      WithoutNone(ids, {});
    }
  }

  lemma {:induction false} UpdateKeepsHealthy(cache: Cache, id: int, status: int)
    requires Healthy(cache)
    ensures Healthy(UpdateStatus(cache, id, status))
  {
    var after := UpdateStatus(cache, id, status);
    var gone := if status != STATUS_ENABLED then {id} else {};
    forall g, m
      ensures var ids := ListAt(after.index, g, m);
              && NoDuplicates(ids) && SortedDesc(ids, after.idm)
              && forall x :: x in ids ==> x in after.idm && after.idm[x].status == STATUS_ENABLED
    {
      var ids := ListAt(cache.index, g, m);
      UpdateLists(cache, id, status, g, m);
      WithoutSound(ids, gone);
      WithoutSorted(ids, gone, cache.idm);
      assert forall x :: PriorityOf(after.idm, x) == PriorityOf(cache.idm, x);
    }
  }

  /** Over every run of status updates each list keeps its order and loses
      exactly the channels the run disabled; it stays duplicate-free, sorted
      and free of disabled channels. */
  lemma {:induction false} RunRemovesExactlyDisabled(cache: Cache, updates: seq<StatusUpdate>, g: string, m: string)
    requires Healthy(cache)
    ensures Healthy(RunUpdates(cache, updates))
    ensures ListAt(RunUpdates(cache, updates).index, g, m) == Without(ListAt(cache.index, g, m), DisabledBy(updates))
    decreases |updates|
  {
    hide Healthy;
    var ids := ListAt(cache.index, g, m);
    if updates == [] {
      WithoutNone(ids, DisabledBy(updates));
    } else {
      var u := updates[0];
      var gone := if u.status != STATUS_ENABLED then {u.id} else {};
      UpdateKeepsHealthy(cache, u.id, u.status);
      UpdateLists(cache, u.id, u.status, g, m);
      RunRemovesExactlyDisabled(UpdateStatus(cache, u.id, u.status), updates[1..], g, m);
      WithoutTwice(ids, gone, DisabledBy(updates[1..]));
      assert updates == [u] + updates[1..];
      assert DisabledBy(updates) == gone + DisabledBy(updates[1..]);
    }
  }

  /** The status a run of updates last gives a channel, or the one it had. */
  function LastStatus(updates: seq<StatusUpdate>, id: int, status: int): int
    decreases |updates|
  {
    if updates == [] then status
    else LastStatus(updates[1..], id, if updates[0].id == id then updates[0].status else status)
  }

  /** Over every run each entry takes the status last given to it, and nothing
      else of any entry changes. */
  lemma {:induction false} RunLeavesLastStatus(cache: Cache, updates: seq<StatusUpdate>, id: int)
    ensures id in RunUpdates(cache, updates).idm <==> id in cache.idm
    ensures id in cache.idm ==>
              RunUpdates(cache, updates).idm[id] ==
              cache.idm[id].(status := LastStatus(updates, id, cache.idm[id].status))
    decreases |updates|
  {
    hide RemoveEverywhere;
    if updates != [] {
      RunLeavesLastStatus(UpdateStatus(cache, updates[0].id, updates[0].status), updates[1..], id);
    }
  }

  // ---------------------------------------------------------------------
  // Updates between reading the tables and installing the cache
  // ---------------------------------------------------------------------

  /** The channel's last update disabled it. */
  ghost predicate LeftDisabled(updates: seq<StatusUpdate>, id: int) {
    exists k :: 0 <= k < |updates| && updates[k].id == id && updates[k].status != STATUS_ENABLED
                && forall j :: k < j < |updates| ==> updates[j].id != id
  }

  /** No channel the updates left disabled is in any list. */
  ghost predicate ListsNoneOf(index: Index, updates: seq<StatusUpdate>) {
    forall g, m, id :: id in ListAt(index, g, m) ==> !LeftDisabled(updates, id)
  }

  lemma {:induction false} InMultiset(ids: seq<int>, id: int)
    ensures id in ids <==> multiset(ids)[id] > 0
  {
  }

  /** A channel that was read enabled is listed somewhere. */
  lemma {:induction false} EnabledIsListed(rows: seq<Channel>, index: Index, c: Channel)
    requires DistinctIds(rows) && c in rows && c.status == STATUS_ENABLED && Counted(index, rows)
    ensures exists g, m :: c.id in ListAt(index, g, m)
  {
    hide Occurrences;
    var groups, models := Split(c.group, ','), Split(c.models, ',');
    var g, m := groups[0], models[0];
    assert g in groups && m in models;
    OccurrencesOf(rows, g, m, c.id);
    RawCount(groups, models, g, m);
    ProductPositive(multiset(groups)[g], multiset(models)[m]);
    InMultiset(ListAt(index, g, m), c.id);
    assert c.id in ListAt(index, g, m);
  }

  lemma {:induction false} ProductPositive(a: nat, b: nat)
    requires a > 0 && b > 0
    ensures a * b > 0
  {
  }

  /** Only channels that were read enabled are listed. */
  lemma {:induction false} ListedIsEnabled(rows: seq<Channel>, index: Index, g: string, m: string, id: int)
    requires DistinctIds(rows) && Counted(index, rows) && id in ListAt(index, g, m)
    ensures exists c :: c in rows && c.id == id && c.status == STATUS_ENABLED
  {
    hide Occurrences;
    InMultiset(ListAt(index, g, m), id);
    OccurrencesOf(rows, g, m, id);
  }

  /** The cache is installed from rows read earlier: channels disabled in between
      stay out of every list exactly when none of them was still enabled in those
      rows. */
  lemma {:induction false} LateInstallExact(
    after: Cache, cache: Cache, updates: seq<StatusUpdate>, rows: seq<Channel>, table: Table)
    requires DistinctIds(rows) && Initialised(after, RunUpdates(cache, updates), rows, table)
    ensures ListsNoneOf(after.index, updates) <==>
            forall c :: c in rows && c.status == STATUS_ENABLED ==> !LeftDisabled(updates, c.id)
  {
    hide Counted, LeftDisabled, SortedDesc, ListAt;
    if ListsNoneOf(after.index, updates) {
      forall c | c in rows && c.status == STATUS_ENABLED ensures !LeftDisabled(updates, c.id) {
        EnabledIsListed(rows, after.index, c);
      }
    }
    if forall c :: c in rows && c.status == STATUS_ENABLED ==> !LeftDisabled(updates, c.id) {
      forall g, m, id | id in ListAt(after.index, g, m) ensures !LeftDisabled(updates, id) {
        ListedIsEnabled(rows, after.index, g, m, id);
      }
    }
  }

  /** A channel read enabled, then disabled, then installed: its list has it again,
      and its entry says enabled. */
  lemma {:induction false} LateInstallUndoesDisable(after: Cache, cache: Cache, c: Channel, status: int, table: Table)
    requires c.status == STATUS_ENABLED && status != STATUS_ENABLED
    requires Initialised(after, RunUpdates(cache, [StatusUpdate(c.id, status)]), [c], table)
    ensures exists g, m :: c.id in ListAt(after.index, g, m)
    ensures c.id in after.idm && after.idm[c.id].status == STATUS_ENABLED
  {
    hide Counted, SortedDesc, ListAt, RunUpdates;
    assert c in [c] && DistinctIds([c]);
    EnabledIsListed([c], after.index, c);
    EntryAfterBuild(after, RunUpdates(cache, [StatusUpdate(c.id, status)]), [c], table, c);
  }

  lemma {:induction false} IdMapHas(rows: seq<Channel>)
    requires DistinctIds(rows)
    ensures forall c :: c in rows ==> c.id in IdMap(rows) && IdMap(rows)[c.id] == c
  {
    if rows != [] {
      var init := rows[..|rows| - 1];
      IdMapHas(init);
      assert rows == init + [rows[|rows| - 1]];
      assert forall c :: c in init ==> c.id != rows[|rows| - 1].id;
    }
  }

  /** What a build leaves of a channel: the row read, except that a channel
      polling before and after keeps its saved position. */
  lemma {:induction false} EntryAfterBuild(after: Cache, before: Cache, rows: seq<Channel>, table: Table, c: Channel)
    requires DistinctIds(rows) && c in rows && Initialised(after, before, rows, table)
    ensures c.id in after.idm && after.idm[c.id].(polling := c.polling) == c
    ensures after.idm[c.id].polling ==
              if c.polling.Some? && c.id in before.idm && before.idm[c.id].polling.Some? then before.idm[c.id].polling
              else c.polling
  {
    IdMapHas(rows);
    hide IdMap, Counted, SortedDesc;
  }

  /** A freshly initialised cache over clean rows is healthy, so the result
      above applies to whatever updates follow. */
  lemma {:induction false} FreshCacheHealthy(after: Cache, before: Cache, rows: seq<Channel>)
    requires DistinctIds(rows) && Initialised(after, before, rows, Rebuild(rows))
    requires forall c :: c in rows && c.status == STATUS_ENABLED ==> Clean(c)
    ensures Healthy(after)
  {
    hide Clean, Rebuild, Occurrences, IdMap;
    IndexMatchesAbilities(after, before, rows);
    IdMapHas(rows);
    forall g, m
      ensures var ids := ListAt(after.index, g, m);
              && NoDuplicates(ids) && SortedDesc(ids, after.idm)
              && forall id :: id in ids ==> id in after.idm && after.idm[id].status == STATUS_ENABLED
    {
      var ids := ListAt(after.index, g, m);
      OnceEach(ids);
      forall id | id in ids ensures id in after.idm && after.idm[id].status == STATUS_ENABLED {
        assert multiset(ids)[id] > 0;
        OccurrencesOf(rows, g, m, id);
      }
    }
  }

  lemma {:induction false} OnceEach(ids: seq<int>)
    requires forall id :: multiset(ids)[id] <= 1
    ensures NoDuplicates(ids)
  {
    if ids != [] {
      var init := ids[..|ids| - 1];
      assert ids == init + [ids[|ids| - 1]];
      forall id ensures multiset(init)[id] <= 1 { assert multiset(ids)[id] <= 1; }
      OnceEach(init);
      assert multiset(ids)[ids[|ids| - 1]] <= 1;
      assert ids[|ids| - 1] !in multiset(init);
    }
  }

  lemma {:induction false} ChosenIsTarget(
    ids: seq<int>, idm: map<int, Channel>, retry: int, retryTimes: int, random: nat, c: Channel)
    returns (id: int)
    requires Chosen(ids, idm, retry, retryTimes, random, c)
    ensures id in ids && id in idm && idm[id] == c
    ensures retry <= 0 ==> c.priority == LevelsOf(ids, idm)[0]
  {
    hide LevelsOf, AtLevel, WeightsOf;
    var levels := LevelsOf(ids, idm);
    var level := levels[RetrySchedule.MapRetryToPriorityIndex(retry, |levels|, retryTimes + 1)];
    var targets := AtLevel(ids, idm, level);
    var i :| 0 <= i < |targets| && targets[i] in idm && c == idm[targets[i]];
    AtLevelSound(ids, idm, level);
    id := targets[i];
    assert id in targets;
  }

  /** Routing over a healthy cache: whatever the retry and the draw, a request
      served from a list gets an enabled channel of that list, and the first
      attempt gets one of the highest priority. */
  lemma {:induction false} ChosenIsEnabled(
    cache: Cache, group: string, model: string, retry: int, retryTimes: int, random: nat, c: Channel)
    requires Healthy(cache)
    requires Chosen(ListAt(cache.index, group, model), cache.idm, retry, retryTimes, random, c)
    ensures c.status == STATUS_ENABLED
    ensures exists id :: id in ListAt(cache.index, group, model) && id in cache.idm && cache.idm[id] == c
    ensures retry <= 0 ==>
              forall id :: id in ListAt(cache.index, group, model) ==> PriorityOf(cache.idm, id) <= c.priority
  {
    var ids := ListAt(cache.index, group, model);
    var chosen := ChosenIsTarget(ids, cache.idm, retry, retryTimes, random, c);
    hide LevelsOf, Chosen;
    LevelsSound(ids, cache.idm);
    forall id | id in ids ensures PriorityOf(cache.idm, id) <= LevelsOf(ids, cache.idm)[0] {
      assert PriorityOf(cache.idm, id) in LevelsOf(ids, cache.idm);
    }
  }

  /** From the database to the answer: after a build over clean rows a request for
      a group and model is served exactly when the table has an enabled row for
      them, and then by a channel with such a row. */
  lemma {:induction false} ServedByAbility(
    after: Cache, before: Cache, rows: seq<Channel>, group: string, model: string,
    retry: int, retryTimes: int, random: nat, r: Result<Option<Channel>, LookupError>)
    requires DistinctIds(rows) && Initialised(after, before, rows, Rebuild(rows))
    requires forall c :: c in rows && c.status == STATUS_ENABLED ==> Clean(c)
    requires var ids := ListAt(after.index, group, model);
             if ids == [] then r == Ok(None) else AnsweredFrom(ids, after.idm, retry, retryTimes, random, r)
    ensures (exists id :: EnabledRow(Rebuild(rows), group, model, id)) <==> r != Ok(None)
    ensures r != Ok(None) ==>
              && r.Ok? && r.value.value.status == STATUS_ENABLED
              && EnabledRow(Rebuild(rows), group, model, r.value.value.id)
  {
    IndexMatchesAbilities(after, before, rows);
    FreshCacheHealthy(after, before, rows);
    var ids := ListAt(after.index, group, model);
    hide Clean, Rebuild, Counted, IdMap, LevelsOf, Chosen, EnabledRow, SortedDesc;
    forall id ensures id in ids <==> EnabledRow(Rebuild(rows), group, model, id) {
      InMultiset(ids, id);
      assert multiset(ids)[id] == if EnabledRow(Rebuild(rows), group, model, id) then 1 else 0;
    }
    if ids != [] {
      var first := ids[0];
      assert first in ids;
      var c := r.value.value;
      ChosenIsEnabled(after, group, model, retry, retryTimes, random, c);
      var id :| id in ids && id in after.idm && after.idm[id] == c;
      OwnIds(after, before, rows, id);
    }
  }

  /** The draws below the bound for which the choice over a list can return a
      channel. */
  ghost function DrawsFor(ids: seq<int>, idm: map<int, Channel>, retry: int, retryTimes: int, c: Channel,
                          bound: nat): set<int>
  {
    set d | 0 <= d < bound && Chosen(ids, idm, retry, retryTimes, d, c)
  }

  /** The odds of each channel of the level a retry maps to: 100 of the equally
      likely draws when the level's weights are all 0, 100 for each unit of its
      weight when they average below 10, and else one for each unit. */
  lemma {:induction false} ChannelOdds(ids: seq<int>, idm: map<int, Channel>, retry: int, retryTimes: int, id: int)
    requires NoDuplicates(ids) && id in ids && forall x :: x in ids ==> x in idm && idm[x].id == x
    requires var levels := LevelsOf(ids, idm);
             levels != [] && idm[id].priority
             == levels[RetrySchedule.MapRetryToPriorityIndex(retry, |levels|, retryTimes + 1)]
    ensures var ws := WeightsOf(AtLevel(ids, idm, idm[id].priority), idm);
            && ws != []
            && |DrawsFor(ids, idm, retry, retryTimes, idm[id], WeightedPick.TotalWeight(ws))| ==
               if WeightedPick.Sum(ws) == 0 then 100
               else if WeightedPick.Sum(ws) / |ws| < 10 then 100 * idm[id].weight
               else idm[id].weight
  {
    var c := idm[id];
    var targets := AtLevel(ids, idm, c.priority);
    AtLevelSound(ids, idm, c.priority);
    AtLevelDistinct(ids, idm, c.priority);
    var i :| 0 <= i < |targets| && targets[i] == id;
    var ws := WeightsOf(targets, idm);
    WeightedPick.PickIsExact(ws, i);
    hide LevelsOf, AtLevel, WeightsOf, DrawsFor, WeightedPick.DrawsFor, WeightedPick.Smoothed,
        WeightedPick.TotalWeight;
    SameDraws(ids, idm, retry, retryTimes, targets, i);
  }

  lemma {:induction false} SameDraws(
    ids: seq<int>, idm: map<int, Channel>, retry: int, retryTimes: int, targets: seq<int>, i: nat)
    requires var levels := LevelsOf(ids, idm);
             && levels != []
             && targets
                == AtLevel(ids, idm, levels[RetrySchedule.MapRetryToPriorityIndex(retry, |levels|, retryTimes + 1)])
    requires i < |targets| && NoDuplicates(targets) && forall x :: x in targets ==> x in idm && idm[x].id == x
    ensures var ws := WeightsOf(targets, idm);
            DrawsFor(ids, idm, retry, retryTimes, idm[targets[i]], WeightedPick.TotalWeight(ws)) ==
            WeightedPick.DrawsFor(WeightedPick.Smoothed(ws), i)
  {
    var ws := WeightsOf(targets, idm);
    WeightedPick.TotalIsSumOfEffective(ws);
    var total := WeightedPick.TotalWeight(ws);
    var es := WeightedPick.Smoothed(ws);
    assert targets[i] in targets;
    var c := idm[targets[i]];
    hide LevelsOf, AtLevel, WeightsOf, Chosen, WeightedPick.LandsOn, WeightedPick.Smoothed, WeightedPick.TotalWeight;
    forall d ensures d in DrawsFor(ids, idm, retry, retryTimes, c, total) <==> d in WeightedPick.DrawsFor(es, i) {
      if 0 <= d < total { ChosenLands(ids, idm, retry, retryTimes, d, targets, i); }
    }
    assert DrawsFor(ids, idm, retry, retryTimes, c, total) == WeightedPick.DrawsFor(es, i);
  }

  lemma {:induction false} ChosenLands(
    ids: seq<int>, idm: map<int, Channel>, retry: int, retryTimes: int, d: nat, targets: seq<int>, i: nat)
    requires var levels := LevelsOf(ids, idm);
             && levels != []
             && targets
                == AtLevel(ids, idm, levels[RetrySchedule.MapRetryToPriorityIndex(retry, |levels|, retryTimes + 1)])
    requires i < |targets| && NoDuplicates(targets) && forall x :: x in targets ==> x in idm && idm[x].id == x
    requires d < WeightedPick.TotalWeight(WeightsOf(targets, idm))
    ensures Chosen(ids, idm, retry, retryTimes, d, idm[targets[i]]) <==>
            WeightedPick.LandsOn(WeightedPick.Smoothed(WeightsOf(targets, idm)), d, i)
  {
    hide LevelsOf, AtLevel, WeightsOf, WeightedPick.LandsOn, WeightedPick.Smoothed, WeightedPick.TotalWeight;
    var total := WeightedPick.TotalWeight(WeightsOf(targets, idm));
    assert d % total == d;
    assert targets[i] in targets;
    if Chosen(ids, idm, retry, retryTimes, d, idm[targets[i]]) {
      var j :| 0 <= j < |targets| && targets[j] in idm && idm[targets[i]] == idm[targets[j]]
               && WeightedPick.LandsOn(WeightedPick.Smoothed(WeightsOf(targets, idm)), d % total, j);
      assert targets[j] in targets && targets[i] == targets[j];
      assert i == j;
    }
  }

  lemma {:induction false} AtLevelDistinct(ids: seq<int>, idm: map<int, Channel>, level: int)
    requires NoDuplicates(ids)
    ensures NoDuplicates(AtLevel(ids, idm, level))
  {
    AtLevelSound(ids, idm, level);
    if ids != [] {
      AtLevelDistinct(ids[..|ids| - 1], idm, level);
      AtLevelSound(ids[..|ids| - 1], idm, level);
    }
  }

  /** Entries are stored under their own ids. */
  lemma {:induction false} OwnIds(after: Cache, before: Cache, rows: seq<Channel>, id: int)
    requires DistinctIds(rows) && Initialised(after, before, rows, Rebuild(rows)) && id in after.idm
    ensures after.idm[id].id == id
  {
    IdMapOwn(rows);
    hide IdMap, Counted, Rebuild, SortedDesc;
  }

  lemma {:induction false} IdMapOwn(rows: seq<Channel>)
    ensures forall id :: id in IdMap(rows) ==> IdMap(rows)[id].id == id
  {
    if rows != [] { IdMapOwn(rows[..|rows| - 1]); }
  }
}
