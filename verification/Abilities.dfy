/** The abilities table: which (group, model, channel) rows a channel writes. */
module Abilities {
  import opened ChannelStatus
  import opened Text
  import opened Wrappers

  /** The columns of a channel row that routing reads; a missing priority or
      weight reads as 0.  `polling` is the saved position of a multi-key channel
      in polling mode, and None for every other channel. */
  datatype Channel = Channel(id: int, status: int, group: string, models: string,
                             priority: int, weight: nat, polling: Option<int>)

  /** The primary key of an ability row. */
  datatype AbilityKey = AbilityKey(group: string, model: string, channelId: int)

  /** The table: each row's enabled flag. */
  type Table = map<AbilityKey, bool>

  datatype Pair = Pair(group: string, model: string)

  /** The text AddAbilities deduplicates by. */
  function SetKey(p: Pair): string { p.group + "|" + p.model }

  /** The row keys in the order of the nested loops: models outside, groups
      inside, each group trimmed. */
  function PairsOfModel(model: string, groups: seq<string>): (ps: seq<Pair>)
    ensures |ps| == |groups|
    ensures forall i :: 0 <= i < |groups| ==> ps[i] == Pair(TrimSpace(groups[i]), model)
  {
    if groups == [] then []
    else PairsOfModel(model, groups[..|groups| - 1]) + [Pair(TrimSpace(groups[|groups| - 1]), model)]
  }

  function Pairs(models: seq<string>, groups: seq<string>): seq<Pair> {
    if models == [] then []
    else Pairs(models[..|models| - 1], groups) + PairsOfModel(models[|models| - 1], groups)
  }

  function SetKeys(ps: seq<Pair>): set<string> { set p | p in ps :: SetKey(p) }

  /** The pairs whose key did not occur before. */
  function Dedup(ps: seq<Pair>): seq<Pair> {
    if ps == [] then []
    else
      var init := ps[..|ps| - 1];
      var last := ps[|ps| - 1];
      Dedup(init) + if SetKey(last) in SetKeys(init) then [] else [last]
  }

  function PairsOf(c: Channel): seq<Pair> {
    Pairs(Split(c.models, ','), Split(c.group, ','))
  }

  /** The rows a channel contributes. */
  function RowsOf(c: Channel): seq<Pair> { Dedup(PairsOf(c)) }

  lemma {:induction false} DedupSnoc(ps: seq<Pair>, p: Pair)
    ensures SetKeys(ps + [p]) == SetKeys(ps) + {SetKey(p)}
    ensures Dedup(ps + [p]) == Dedup(ps) + if SetKey(p) in SetKeys(ps) then [] else [p]
  {
    var all := ps + [p];
    assert all[..|all| - 1] == ps;
    assert forall q :: q in all <==> q in ps || q == p;
  }

  lemma {:induction false} PairsOfModelSnoc(model: string, groups: seq<string>, j: nat)
    requires j < |groups|
    ensures PairsOfModel(model, groups[..j + 1]) ==
              PairsOfModel(model, groups[..j]) + [Pair(TrimSpace(groups[j]), model)]
  {
    assert groups[..j + 1][..j] == groups[..j];
  }

  lemma {:induction false} PairsSnoc(models: seq<string>, groups: seq<string>, i: nat)
    requires i < |models|
    ensures Pairs(models[..i + 1], groups) == Pairs(models[..i], groups) + PairsOfModel(models[i], groups)
  {
    assert models[..i + 1][..i] == models[..i];
  }

  /** The nested loops shared by AddAbilities and UpdateAbilities. */
  method CollectAbilities(c: Channel) returns (abilities: seq<Pair>)
    ensures abilities == RowsOf(c)
  {
    hide Dedup, SetKeys, Pairs, PairsOfModel, TrimSpace, Split;
    var models := Split(c.models, ',');
    var groups := Split(c.group, ',');
    var abilitySet: set<string> := {};
    abilities := [];
    ghost var done: seq<Pair> := [];
    NothingDone(groups);
    assert models[..0] == [];
    for i := 0 to |models|
      invariant done == Pairs(models[..i], groups)
      invariant abilities == Dedup(done) && abilitySet == SetKeys(done)
    {
      ghost var before := done;
      NothingPaired(models[i]);
      assert groups[..0] == [];
      for j := 0 to |groups|
        invariant done == before + PairsOfModel(models[i], groups[..j])
        invariant abilities == Dedup(done) && abilitySet == SetKeys(done)
      {
        var pair := Pair(TrimSpace(groups[j]), models[i]);
        var key := pair.group + "|" + pair.model;
        DedupSnoc(done, pair);
        PairsOfModelSnoc(models[i], groups, j);
        if key !in abilitySet {
          abilitySet := abilitySet + {key};
          abilities := abilities + [pair];
        }
        done := done + [pair];
      }
      assert groups[..|groups|] == groups;
      PairsSnoc(models, groups, i);
    }
    assert models[..|models|] == models;
  }

  lemma {:induction false} NothingDone(groups: seq<string>)
    ensures Pairs([], groups) == [] && Dedup([]) == [] && SetKeys([]) == {}
  {
  }

  lemma {:induction false} NothingPaired(model: string)
    ensures PairsOfModel(model, []) == []
  {
  }

  /** Insert with ON CONFLICT DO NOTHING: rows already there win. */
  function Insert(table: Table, c: Channel, rows: seq<Pair>): Table {
    (map p | p in rows :: AbilityKey(p.group, p.model, c.id) := c.status == STATUS_ENABLED) + table
  }

  function DeleteOf(table: Table, id: int): Table {
    map k | k in table && k.channelId != id :: table[k]
  }

  /** UpdateAbilities: delete the channel's rows, then insert the new ones. */
  function UpdateAbilities(table: Table, c: Channel): Table {
    Insert(DeleteOf(table, c.id), c, RowsOf(c))
  }

  /** FixAbility: truncate, then add every channel's rows. */
  function Rebuild(channels: seq<Channel>): Table {
    if channels == [] then map[]
    else
      var last := channels[|channels| - 1];
      Insert(Rebuild(channels[..|channels| - 1]), last, RowsOf(last))
  }

  /** A row already there is not touched by an insertion. */
  lemma {:induction false} InsertKeeps(table: Table, c: Channel, rows: seq<Pair>)
    ensures forall k :: k in Insert(table, c, rows) <==>
                        k in table || (k.channelId == c.id && Pair(k.group, k.model) in rows)
    ensures forall k :: k in table ==> Insert(table, c, rows)[k] == table[k]
  {
    forall k: AbilityKey | k.channelId == c.id && Pair(k.group, k.model) in rows ensures k in Insert(table, c, rows) {
      assert k == AbilityKey(Pair(k.group, k.model).group, Pair(k.group, k.model).model, c.id);
    }
  }

  ghost predicate DistinctIds(channels: seq<Channel>) {
    forall i, j :: 0 <= i < j < |channels| ==> channels[i].id != channels[j].id
  }

  // ---------------------------------------------------------------------
  // What the rows are
  // ---------------------------------------------------------------------

  lemma {:induction false} PairsComplete(models: seq<string>, groups: seq<string>)
    ensures forall p :: p in Pairs(models, groups) <==>
              p.model in models && exists g :: g in groups && TrimSpace(g) == p.group
  {
    if models != [] {
      var init := models[..|models| - 1];
      var last := models[|models| - 1];
      PairsComplete(init, groups);
      assert models == init + [last];
      var row := PairsOfModel(last, groups);
      forall p ensures p in row <==> p.model == last && exists g :: g in groups && TrimSpace(g) == p.group {
        if p in row {
          var i :| 0 <= i < |row| && row[i] == p;
          assert groups[i] in groups;
        }
        if p.model == last && exists g :: g in groups && TrimSpace(g) == p.group {
          var g :| g in groups && TrimSpace(g) == p.group;
          var i :| 0 <= i < |groups| && groups[i] == g;
          assert row[i] == p;
        }
      }
    }
  }

  lemma {:induction false} DedupSubset(ps: seq<Pair>)
    ensures forall p :: p in Dedup(ps) ==> p in ps
  {
    if ps != [] {
      DedupSubset(ps[..|ps| - 1]);
      assert ps == ps[..|ps| - 1] + [ps[|ps| - 1]];
    }
  }

  lemma {:induction false} SetKeysConcat(ps: seq<Pair>, qs: seq<Pair>)
    ensures SetKeys(ps + qs) == SetKeys(ps) + SetKeys(qs)
  {
    assert forall p :: p in ps + qs <==> p in ps || p in qs;
  }

  lemma {:induction false} DedupSameKeys(ps: seq<Pair>)
    ensures SetKeys(Dedup(ps)) == SetKeys(ps)
  {
    if ps != [] {
      var init := ps[..|ps| - 1];
      var last := ps[|ps| - 1];
      DedupSameKeys(init);
      DedupSnoc(init, last);
      assert ps == init + [last];
      SetKeysConcat(Dedup(init), [last]);
    }
  }

  ghost predicate DistinctKeys(ps: seq<Pair>) {
    forall i, j :: 0 <= i < j < |ps| ==> SetKey(ps[i]) != SetKey(ps[j])
  }

  lemma {:induction false} DistinctKeysSnoc(ps: seq<Pair>, p: Pair)
    requires DistinctKeys(ps) && SetKey(p) !in SetKeys(ps)
    ensures DistinctKeys(ps + [p])
  {
    assert forall q :: q in ps ==> SetKey(q) in SetKeys(ps);
  }

  lemma {:induction false} DedupDistinct(ps: seq<Pair>)
    ensures DistinctKeys(Dedup(ps))
  {
    if ps != [] {
      var init := ps[..|ps| - 1];
      DedupDistinct(init);
      DedupSameKeys(init);
      if SetKey(ps[|ps| - 1]) in SetKeys(init) {
        assert Dedup(ps) == Dedup(init);
      } else {
        DistinctKeysSnoc(Dedup(init), ps[|ps| - 1]);
      }
    }
  }

  /** No two different pairs share their deduplication key. */
  ghost predicate KeysDistinguish(ps: seq<Pair>) {
    forall p, q :: p in ps && q in ps && SetKey(p) == SetKey(q) ==> p == q
  }

  lemma {:induction false} SameKeySamePair(ps: seq<Pair>, p: Pair, q: Pair)
    requires p in Dedup(ps) && q in Dedup(ps) && SetKey(p) == SetKey(q)
    ensures p == q
  {
    DedupDistinct(ps);
    var i :| 0 <= i < |Dedup(ps)| && Dedup(ps)[i] == p;
    var j :| 0 <= j < |Dedup(ps)| && Dedup(ps)[j] == q;
    assert i == j;
  }

  /** A channel's rows are its whole cross product of groups and models
      exactly when no two pairs of it collide on "group|model". */
  lemma {:induction false} RowsAreCrossProduct(c: Channel)
    ensures (forall p :: p in RowsOf(c) <==> p in PairsOf(c)) <==> KeysDistinguish(PairsOf(c))
  {
    var ps := PairsOf(c);
    var rows := RowsOf(c);
    DedupSubset(ps);
    DedupSameKeys(ps);
    if KeysDistinguish(ps) {
      forall p | p in ps ensures p in rows {
        assert SetKey(p) in SetKeys(rows);
        var q :| q in rows && SetKey(q) == SetKey(p);
        assert q in ps;
      }
    } else {
      var p, q :| p in ps && q in ps && SetKey(p) == SetKey(q) && p != q;
      if p in rows && q in rows { SameKeySamePair(ps, p, q); }
    }
  }

  function BeforeBar(s: string): string {
    if s == "" || s[0] == '|' then "" else [s[0]] + BeforeBar(s[1..])
  }

  lemma {:induction false} BeforeBarOf(a: string, b: string)
    requires '|' !in a
    ensures BeforeBar(a + "|" + b) == a
  {
    if a == "" {
      assert a + "|" + b == "|" + b;
    } else {
      BeforeBarOf(a[1..], b);
      assert (a + "|" + b)[1..] == a[1..] + "|" + b;
      assert a == [a[0]] + a[1..];
    }
  }

  lemma {:induction false} ConcatCancel(a: string, b: string, c: string, d: string)
    requires '|' !in a && '|' !in c && a + "|" + b == c + "|" + d
    ensures a == c && b == d
  {
    BeforeBarOf(a, b);
    BeforeBarOf(c, d);
    assert b == (a + "|" + b)[|a| + 1..];
    assert d == (c + "|" + d)[|c| + 1..];
  }

  /** It is enough that no group name contains the separator. */
  lemma {:induction false} BarFreeGroupsDistinguish(c: Channel)
    requires '|' !in c.group
    ensures KeysDistinguish(PairsOf(c))
  {
    var groups := Split(c.group, ',');
    PairsComplete(Split(c.models, ','), groups);
    SplitChars(c.group, ',');
    forall p, q | p in PairsOf(c) && q in PairsOf(c) && SetKey(p) == SetKey(q) ensures p == q {
      ConcatCancel(p.group, p.model, q.group, q.model);
    }
  }

  lemma {:induction false} SplitChars(s: string, sep: char)
    ensures forall p, c :: p in Split(s, sep) && c in p ==> c in s
  {
    if s != "" {
      SplitChars(s[1..], sep);
      var rest := Split(s[1..], sep);
      var parts := Split(s, sep);
      assert rest[0] in rest;
      if s[0] != sep {
        assert forall p :: p in parts ==> p == [s[0]] + rest[0] || p in rest;
      }
    }
  }

  lemma {:induction false} FirstPair(models: seq<string>, groups: seq<string>)
    requires models != [] && groups != []
    ensures Pairs(models, groups) != [] && Pairs(models, groups)[0] == Pair(TrimSpace(groups[0]), models[0])
  {
    var init := models[..|models| - 1];
    if init != [] { FirstPair(init, groups); }
  }

  lemma {:induction false} FirstStays(ps: seq<Pair>)
    requires ps != []
    ensures Dedup(ps) != [] && Dedup(ps)[0] == ps[0]
  {
    var init := ps[..|ps| - 1];
    if init != [] { FirstStays(init); }
  }

  /** A pair whose key the first pair already used gets no row. */
  lemma {:induction false} CollidingPairHasNoRow(ps: seq<Pair>, q: Pair)
    requires ps != [] && q in ps && q != ps[0] && SetKey(q) == SetKey(ps[0])
    ensures q !in Dedup(ps)
  {
    FirstStays(ps);
    assert Dedup(ps)[0] in Dedup(ps);
    if q in Dedup(ps) { SameKeySamePair(ps, q, ps[0]); }
  }

  lemma {:induction false} SplitTwo(a: string, b: string, sep: char)
    requires sep !in a && sep !in b
    ensures Split(a + [sep] + b, sep) == [a, b]
  {
    SplitPrefix(a, b, sep);
    SplitSingle(b, sep);
  }

  /** Groups "a" and "a|b" with models "b|c" and "c": the pairs (a, b|c) and
      (a|b, c) share the key "a|b|c", and the second one gets no row. */
  lemma {:induction false} CollisionLosesRow(c: Channel)
    requires c.group == "a" + "," + "a|b" && c.models == "b|c" + "," + "c"
    ensures Pair("a|b", "c") in PairsOf(c) && Pair("a|b", "c") !in RowsOf(c)
  {
    hide Dedup, Pairs, TrimSpace, Split;
    var groups := ["a", "a|b"];
    var models := ["b|c", "c"];
    SplitTwo("a", "a|b", ',');
    SplitTwo("b|c", "c", ',');
    PairsComplete(models, groups);
    FirstPair(models, groups);
    assert groups[1] in groups && models[1] in models;
    CollidingPairHasNoRow(PairsOf(c), Pair("a|b", "c"));
  }

  lemma {:induction false} RebuildIds(channels: seq<Channel>)
    ensures forall k :: k in Rebuild(channels) ==> exists c :: c in channels && c.id == k.channelId
  {
    if channels != [] {
      RebuildIds(channels[..|channels| - 1]);
      assert channels == channels[..|channels| - 1] + [channels[|channels| - 1]];
    }
  }

  lemma {:induction false} InsertRows(table: Table, c: Channel, rows: seq<Pair>)
    requires forall k :: k in table ==> k.channelId != c.id
    ensures forall k: AbilityKey :: k.channelId != c.id ==>
              (k in Insert(table, c, rows) <==> k in table) && (k in table ==> Insert(table, c, rows)[k] == table[k])
    ensures forall k: AbilityKey :: k.channelId == c.id ==>
              (k in Insert(table, c, rows) <==> Pair(k.group, k.model) in rows)
              && (k in Insert(table, c, rows) ==> Insert(table, c, rows)[k] == (c.status == STATUS_ENABLED))
  {
    forall k: AbilityKey | k.channelId == c.id && Pair(k.group, k.model) in rows ensures k in Insert(table, c, rows) {
      assert k == AbilityKey(Pair(k.group, k.model).group, Pair(k.group, k.model).model, c.id);
    }
  }

  /** The rows of one channel in a table: its own, with its enabled flag. */
  ghost predicate HasRowsOf(table: Table, c: Channel) {
    forall k: AbilityKey :: k.channelId == c.id ==>
      (k in table <==> Pair(k.group, k.model) in RowsOf(c)) && (k in table ==> table[k] == (c.status == STATUS_ENABLED))
  }

  /** Rebuilding the table gives each channel exactly its own rows, enabled
      when the channel is. */
  lemma {:induction false} RebuildRows(channels: seq<Channel>)
    requires DistinctIds(channels)
    ensures forall c :: c in channels ==> HasRowsOf(Rebuild(channels), c)
  {
    hide RowsOf, Insert;
    if channels != [] {
      var init := channels[..|channels| - 1];
      var last := channels[|channels| - 1];
      RebuildRows(init);
      RebuildIds(init);
      assert channels == init + [last];
      assert forall d :: d in init ==> d.id != last.id;
      InsertRows(Rebuild(init), last, RowsOf(last));
    }
  }

  /** UpdateAbilities replaces one channel's rows and leaves every other
      channel's alone. */
  lemma {:induction false} UpdateReplacesOwnRows(table: Table, c: Channel)
    ensures HasRowsOf(UpdateAbilities(table, c), c)
    ensures forall d: Channel :: d.id != c.id && HasRowsOf(table, d) ==> HasRowsOf(UpdateAbilities(table, c), d)
  {
    hide RowsOf, Insert;
    InsertRows(DeleteOf(table, c.id), c, RowsOf(c));
  }
}
