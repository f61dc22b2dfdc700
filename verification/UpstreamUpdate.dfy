/** Detecting which upstream models a channel lacks or has in excess, applying
    the selected changes, and when detection then finds nothing more. */
module UpstreamUpdate {
  import opened Text
  import opened Wrappers
  import opened Upstream

  /** regexp.MatchString: does the pattern compile and match the name? */
  type Matcher = (string, string) -> bool

  const REGEX_PREFIX := "regex:"

  /** One ignore entry against one upstream name. */
  predicate Ignores(entry: string, name: string, matches: Matcher) {
    if REGEX_PREFIX <= entry then matches(TrimSpace(entry[|REGEX_PREFIX|..]), name) else entry == name
  }

  predicate IgnoredByAny(ignored: seq<string>, name: string, matches: Matcher) {
    exists e :: e in ignored && Ignores(e, name, matches)
  }

  function IgnoredAmong(names: seq<string>, ignored: seq<string>, matches: Matcher): set<string> {
    set m | m in names && IgnoredByAny(ignored, m, matches)
  }

  /** collectPendingUpstreamModelChangesFromModels, the additions: upstream
      names neither local, nor a redirect target, nor ignored. */
  function PendingAdd(local: seq<string>, upstream: seq<string>, ignored: seq<string>,
                      mapping: map<string, string>, matches: Matcher): seq<string>
  {
    var names := Normalize(upstream);
    var covered := Elems(Normalize(local)) + mapping.Values;
    Normalize(Without(names, covered + IgnoredAmong(names, Normalize(ignored), matches)))
  }

  /** The same, the removals: local names neither a redirect source nor served
      upstream. */
  function PendingRemove(local: seq<string>, upstream: seq<string>, mapping: map<string, string>): seq<string> {
    Normalize(Without(Normalize(local), mapping.Keys + Elems(Normalize(upstream))))
  }

  /** GetModels. */
  function ModelsOf(models: string): seq<string> { Fields(models, ',') }

  /** The channel's model text and its update settings. */
  datatype Row = Row(models: string, ignored: seq<string>, detected: seq<string>, removed: seq<string>,
                     lastCheck: int, autoSync: bool)

  datatype Outcome = Outcome(row: Row, added: seq<string>, dropped: seq<string>, changed: bool)

  /** The model list an application of changes arrives at. */
  function NextModels(s: Row, add: seq<string>, remove: seq<string>): seq<string> {
    ApplySelected(Normalize(ModelsOf(s.models)), add, remove)
  }

  /** applyChannelUpstreamModelUpdates. */
  function Apply(s: Row, addInput: seq<string>, ignoreInput: seq<string>, removeInput: seq<string>, now: int): Outcome {
    var pendingAdd := Normalize(s.detected);
    var pendingRemove := Normalize(s.removed);
    var add := Intersect(addInput, pendingAdd);
    var ignore := Intersect(ignoreInput, pendingAdd);
    var remove := Subtract(Intersect(removeInput, pendingRemove), add);
    var origin := Normalize(ModelsOf(s.models));
    var next := NextModels(s, add, remove);
    var merged := Merge(s.ignored, ignore);
    var row := Row(if next != origin then Join(next, ',') else s.models,
                   if add != [] then Subtract(merged, add) else merged,
                   Subtract(pendingAdd, add + ignore),
                   Subtract(pendingRemove, remove),
                   now, s.autoSync);
    Outcome(row, add, remove, next != origin)
  }

  datatype CheckOutcome = CheckOutcome(row: Row, changed: bool, autoAdded: int, ok: bool)

  /** checkAndPersistChannelUpstreamModelUpdates; `fetched` is None when the
      upstream could not be asked. */
  function Check(s: Row, fetched: Option<seq<string>>, mapping: map<string, string>, matches: Matcher,
                 force: bool, allowAutoApply: bool, now: int, minInterval: int): CheckOutcome
  {
    if !force && s.lastCheck > 0 && now - s.lastCheck < minInterval then CheckOutcome(s, false, 0, true)
    else match fetched
      case None => CheckOutcome(s.(lastCheck := now), false, 0, false)
      case Some(upstream) =>
        var adds := PendingAdd(ModelsOf(s.models), upstream, s.ignored, mapping, matches);
        var removes := PendingRemove(ModelsOf(s.models), upstream, mapping);
        if allowAutoApply && s.autoSync && adds != [] then
          var origin := Normalize(ModelsOf(s.models));
          var merged := Merge(origin, adds);
          if |merged| > |origin| then
            CheckOutcome(s.(models := Join(merged, ','), detected := [], removed := removes, lastCheck := now),
                         true, |merged| - |origin|, true)
          else CheckOutcome(s.(detected := [], removed := removes, lastCheck := now), false, 0, true)
        else CheckOutcome(s.(detected := adds, removed := removes, lastCheck := now), false, 0, true)
  }

  // ---------------------------------------------------------------------
  // What detection finds
  // ---------------------------------------------------------------------

  /** A plain ignore entry hides the name equal to it and nothing else; an entry
      "regex:" and a pattern hides what the pattern matches. */
  lemma {:induction false} IgnoresExact(entry: string, pattern: string, name: string, matches: Matcher)
    ensures !("regex:" <= entry) ==> (Ignores(entry, name, matches) <==> name == entry)
    ensures Ignores("regex:" + pattern, name, matches) <==> matches(TrimSpace(pattern), name)
  {
    assert ("regex:" + pattern)[|"regex:"|..] == pattern;
    hide TrimSpace;
  }

  lemma {:induction false} NormalInOrder(l: seq<string>, s: set<string>)
    requires Normal(l)
    ensures InOrderOf(Without(l, s), l)
  {
    WithoutInOrder(l, s);
  }

  lemma {:induction false} PendingMeaning(local: seq<string>, upstream: seq<string>, ignored: seq<string>,
                                          mapping: map<string, string>, matches: Matcher)
    ensures var adds := PendingAdd(local, upstream, ignored, mapping, matches);
            && Normal(adds) && InOrderOf(adds, Normalize(upstream))
            && forall m :: m in adds <==>
                 && m in Normalize(upstream) && m !in Normalize(local) && m !in mapping.Values
                 && !IgnoredByAny(Normalize(ignored), m, matches)
    ensures var removes := PendingRemove(local, upstream, mapping);
            && Normal(removes) && InOrderOf(removes, Normalize(local))
            && forall m :: m in removes <==> m in Normalize(local) && m !in mapping.Keys && m !in Normalize(upstream)
  {
    hide Normalize, Without, Normal, IgnoredByAny, InOrderOf;
    var names := Normalize(upstream);
    var skip := Elems(Normalize(local)) + mapping.Values + IgnoredAmong(names, Normalize(ignored), matches);
    NormalizeNormal(upstream);
    WithoutNormal(names, skip);
    NormalizeNormal(Without(names, skip));
    NormalInOrder(names, skip);
    forall m ensures m in Without(names, skip) <==> m in names && m !in skip {
      assert m in Elems(Without(names, skip)) <==> m in Elems(names) && m !in skip;
    }
    var keep := mapping.Keys + Elems(names);
    NormalizeNormal(local);
    WithoutNormal(Normalize(local), keep);
    NormalizeNormal(Without(Normalize(local), keep));
    NormalInOrder(Normalize(local), keep);
    forall m ensures m in Without(Normalize(local), keep) <==> m in Normalize(local) && m !in keep {
      assert m in Elems(Without(Normalize(local), keep)) <==> m in Elems(Normalize(local)) && m !in keep;
    }
  }

  /** The additions a check finds for a row, in upstream order: the upstream names
      that are not local, no redirect target and not ignored. */
  ghost predicate FoundAdditions(adds: seq<string>, s: Row, upstream: seq<string>, mapping: map<string, string>,
                                 matches: Matcher)
  {
    && Normal(adds) && InOrderOf(adds, Normalize(upstream))
    && forall m :: m in adds <==>
         && m in Normalize(upstream) && m !in Normalize(ModelsOf(s.models)) && m !in mapping.Values
         && !exists e :: e in Normalize(s.ignored) && Ignores(e, m, matches)
  }

  /** The removals: the local names that are no redirect source and not upstream. */
  ghost predicate FoundRemovals(removes: seq<string>, s: Row, upstream: seq<string>, mapping: map<string, string>) {
    && Normal(removes) && InOrderOf(removes, Normalize(ModelsOf(s.models)))
    && forall m :: m in removes <==>
         m in Normalize(ModelsOf(s.models)) && m !in mapping.Keys && m !in Normalize(upstream)
  }

  /** The models after a check that applies the additions: all of them appended. */
  ghost predicate AutoApplied(s: Row, models: string, autoAdded: int, upstream: seq<string>,
                              mapping: map<string, string>, matches: Matcher)
  {
    exists adds :: FoundAdditions(adds, s, upstream, mapping, matches) && autoAdded == |adds|
                   && models == if adds == [] then s.models else Join(Normalize(ModelsOf(s.models)) + adds, ',')
  }

  /** What a check that asked the upstream leaves, apart from the time. */
  ghost predicate Checked(s: Row, t: Row, changed: bool, autoAdded: int, upstream: seq<string>,
                          mapping: map<string, string>, matches: Matcher, autoApply: bool)
  {
    && t.ignored == s.ignored && t.autoSync == s.autoSync && (changed <==> autoAdded > 0)
    && FoundRemovals(t.removed, s, upstream, mapping)
    && if autoApply then t.detected == [] && AutoApplied(s, t.models, autoAdded, upstream, mapping, matches)
       else FoundAdditions(t.detected, s, upstream, mapping, matches) && t.models == s.models && autoAdded == 0
  }

  /** A check is skipped, and then leaves everything alone, exactly when it is not
      forced and the last one is less than the interval ago; a failed fetch
      changes the time alone; any other check records exactly what is pending. */
  lemma {:induction false} CheckExact(
    s: Row, fetched: Option<seq<string>>, mapping: map<string, string>, matches: Matcher,
    force: bool, allowAutoApply: bool, now: int, minInterval: int)
    ensures var out := Check(s, fetched, mapping, matches, force, allowAutoApply, now, minInterval);
            if !force && s.lastCheck > 0 && now - s.lastCheck < minInterval then out == CheckOutcome(s, false, 0, true)
            else if fetched.None? then out == CheckOutcome(s.(lastCheck := now), false, 0, false)
            else
              && out.ok && out.row.lastCheck == now
              && Checked(s, out.row, out.changed, out.autoAdded, fetched.value, mapping, matches,
                         allowAutoApply && s.autoSync)
  {
    if (force || s.lastCheck <= 0 || now - s.lastCheck >= minInterval) && fetched.Some? {
      var upstream := fetched.value;
      var adds := PendingAdd(ModelsOf(s.models), upstream, s.ignored, mapping, matches);
      PendingFound(s, upstream, mapping, matches);
      if allowAutoApply && s.autoSync && adds != [] { MergedAll(s, upstream, mapping, matches); }
      hide Normalize, ModelsOf, PendingAdd, PendingRemove, FoundAdditions, FoundRemovals, Merge;
      if allowAutoApply && s.autoSync {
        var out := Check(s, fetched, mapping, matches, force, allowAutoApply, now, minInterval);
        assert AutoApplied(s, out.row.models, out.autoAdded, upstream, mapping, matches) by {
          assert FoundAdditions(adds, s, upstream, mapping, matches);
        }
      }
    }
  }

  lemma {:induction false} PendingFound(
    s: Row, upstream: seq<string>, mapping: map<string, string>, matches: Matcher)
    ensures FoundAdditions(PendingAdd(ModelsOf(s.models), upstream, s.ignored, mapping, matches), s, upstream, mapping,
                           matches)
    ensures FoundRemovals(PendingRemove(ModelsOf(s.models), upstream, mapping), s, upstream, mapping)
  {
    PendingMeaning(ModelsOf(s.models), upstream, s.ignored, mapping, matches);
    hide Normalize, ModelsOf, PendingAdd, PendingRemove, Normal, InOrderOf, Ignores;
  }

  /** No addition is local, so merging appends them all. */
  lemma {:induction false} MergedAll(s: Row, upstream: seq<string>, mapping: map<string, string>, matches: Matcher)
    ensures var adds := PendingAdd(ModelsOf(s.models), upstream, s.ignored, mapping, matches);
            var origin := Normalize(ModelsOf(s.models));
            Merge(origin, adds) == origin + adds
  {
    var adds := PendingAdd(ModelsOf(s.models), upstream, s.ignored, mapping, matches);
    var origin := Normalize(ModelsOf(s.models));
    PendingMeaning(ModelsOf(s.models), upstream, s.ignored, mapping, matches);
    hide Normalize, Without, ModelsOf, Normal, PendingAdd, IgnoredByAny, InOrderOf;
    NormalizeNormal(ModelsOf(s.models));
    NormalizeNormal(origin);
    NormalizeNormal(adds);
    WithoutNothing(adds, Elems(origin));
  }

  // ---------------------------------------------------------------------
  // Where every pending change ends
  // ---------------------------------------------------------------------

  /** Every pending addition ends in exactly one place: applied when it was
      selected to be added, else ignored when it was selected to be ignored,
      else still pending.  Every pending removal ends removed, when selected and
      not added, or still pending. */
  lemma {:induction false} EveryChangeEndsOnce(s: Row, addInput: seq<string>, ignoreInput: seq<string>,
                                               removeInput: seq<string>, now: int)
    ensures var out := Apply(s, addInput, ignoreInput, removeInput, now);
            var pendingAdd := Elems(Normalize(s.detected));
            var pendingRemove := Elems(Normalize(s.removed));
            var a := pendingAdd * Elems(Normalize(addInput));
            var i := pendingAdd * Elems(Normalize(ignoreInput));
            var r := pendingRemove * Elems(Normalize(removeInput)) - a;
            && Elems(out.added) == a
            && Elems(out.row.ignored) == (Elems(Normalize(s.ignored)) + i) - a
            && Elems(out.row.detected) == pendingAdd - a - i
            && Elems(out.dropped) == r
            && Elems(out.row.removed) == pendingRemove - r
            && Normal(out.added) && Normal(out.dropped)
            && Normal(out.row.ignored) && Normal(out.row.detected) && Normal(out.row.removed)
  {
    hide Normalize, Without, Normal, Merge, Subtract, Intersect, ApplySelected;
    var pendingAdd := Normalize(s.detected);
    var pendingRemove := Normalize(s.removed);
    NormalizeNormal(s.detected);
    NormalizeNormal(s.removed);
    NormalizeNormal(pendingAdd);
    NormalizeNormal(pendingRemove);
    var add := Intersect(addInput, pendingAdd);
    IntersectNormal(addInput, pendingAdd);
    NormalizeNormal(add);
    var ignore := Intersect(ignoreInput, pendingAdd);
    IntersectNormal(ignoreInput, pendingAdd);
    NormalizeNormal(ignore);
    var selected := Intersect(removeInput, pendingRemove);
    IntersectNormal(removeInput, pendingRemove);
    NormalizeNormal(selected);
    SubtractNormal(selected, add);
    NormalizeNormal(Subtract(selected, add));
    SubtractNormal(pendingRemove, Subtract(selected, add));
    MergeNormal(s.ignored, ignore);
    NormalizeNormal(Merge(s.ignored, ignore));
    SubtractNormal(Merge(s.ignored, ignore), add);
    SubtractNormal(pendingAdd, add + ignore);
    BothParts(add, ignore);
  }

  /** Added models come in the order they were selected, and what stays pending
      keeps its order. */
  lemma {:induction false} AppliedInOrder(s: Row, addInput: seq<string>, ignoreInput: seq<string>,
                                          removeInput: seq<string>, now: int)
    ensures var out := Apply(s, addInput, ignoreInput, removeInput, now);
            && InOrderOf(out.added, Normalize(addInput))
            && InOrderOf(out.row.detected, Normalize(s.detected))
            && InOrderOf(out.row.removed, Normalize(s.removed))
  {
    hide Normalize, Without, InOrderOf, Merge, ModelsOf, NextModels;
    var pendingAdd := Normalize(s.detected);
    var pendingRemove := Normalize(s.removed);
    NormalizeNormal(s.detected);
    NormalizeNormal(s.removed);
    NormalizeNormal(pendingAdd);
    NormalizeNormal(pendingRemove);
    NormalizeNormal(addInput);
    var add := Intersect(addInput, pendingAdd);
    var ignore := Intersect(ignoreInput, pendingAdd);
    var remove := Subtract(Intersect(removeInput, pendingRemove), add);
    WithoutInOrder(Normalize(addInput), Elems(Normalize(addInput)) - Elems(Normalize(pendingAdd)));
    WithoutInOrder(pendingAdd, Elems(Normalize(add + ignore)));
    WithoutInOrder(pendingRemove, Elems(Normalize(remove)));
  }

  lemma {:induction false} BothParts(a: seq<string>, b: seq<string>)
    requires Normal(a) && Normal(b)
    ensures Elems(Normalize(a + b)) == Elems(a) + Elems(b)
  {
    forall m | m in a + b ensures IsClean(m) {}
    NonBlankFixes(a + b);
    assert Elems(a + b) == Elems(a) + Elems(b);
  }

  /** The new model list: the origin's names in order less those removed, then
      the added ones it lacked; duplicate-free, and as a set origin plus added
      less removed. */
  lemma {:induction false} NextModelsExact(s: Row, addInput: seq<string>, ignoreInput: seq<string>,
                                           removeInput: seq<string>, now: int)
    ensures var out := Apply(s, addInput, ignoreInput, removeInput, now);
            var origin := Normalize(ModelsOf(s.models));
            var next := NextModels(s, out.added, out.dropped);
            && next == Without(origin, Elems(out.dropped)) + Without(out.added, Elems(origin))
            && Normal(next)
            && Elems(next) == (Elems(origin) + Elems(out.added)) - Elems(out.dropped)
            && Elems(out.added) !! Elems(out.dropped)
            && (out.changed <==> next != origin)
            && out.row.models == (if next != origin then Join(next, ',') else s.models)
            && out.row.lastCheck == now && out.row.autoSync == s.autoSync
  {
    EveryChangeEndsOnce(s, addInput, ignoreInput, removeInput, now);
    hide Normalize, Without, Normal, Merge, Subtract, Intersect, ApplySelected, ModelsOf;
    var out := Apply(s, addInput, ignoreInput, removeInput, now);
    var origin := Normalize(ModelsOf(s.models));
    NormalizeNormal(ModelsOf(s.models));
    NormalizeNormal(origin);
    NormalizeNormal(out.added);
    NormalizeNormal(out.dropped);
    ApplySelectedList(origin, out.added, out.dropped);
    ApplySelectedNormal(origin, out.added, out.dropped);
    assert Elems(out.dropped) - Elems(out.added) == Elems(out.dropped);
  }

  // ---------------------------------------------------------------------
  // Reading the stored list back
  // ---------------------------------------------------------------------

  /** A normal list survives the stored text exactly when no name holds a
      comma. */
  lemma {:induction false} StoredListReadsBack(next: seq<string>)
    requires Normal(next)
    ensures Normalize(ModelsOf(Join(next, ','))) == next <==> SepFree(next, ',')
  {
    NormalizeNormal(next);
    NormalizeSepFree(ModelsOf(Join(next, ',')), ',');
    hide Normalize, NonBlank, Uniq, TrimSpace;
    if next != [] && SepFree(next, ',') {
      var first := next[0];
      var last := next[|next| - 1];
      assert first in next && last in next;
      FieldsJoin(next, ',');
    }
  }

  lemma {:induction false} OriginCommaFree(s: Row)
    ensures SepFree(Normalize(ModelsOf(s.models)), ',')
  {
    NormalizeSepFree(ModelsOf(s.models), ',');
  }

  /** After an application the channel's models are the new list exactly when no
      added name holds a comma. */
  lemma {:induction false} AppliedModelsReadBack(s: Row, addInput: seq<string>, ignoreInput: seq<string>,
                                                 removeInput: seq<string>, now: int)
    ensures var out := Apply(s, addInput, ignoreInput, removeInput, now);
            Normalize(ModelsOf(out.row.models)) == NextModels(s, out.added, out.dropped) <==> SepFree(out.added, ',')
  {
    NextModelsExact(s, addInput, ignoreInput, removeInput, now);
    OriginCommaFree(s);
    hide Normalize, Without, Merge, Subtract, Intersect, ApplySelected, ModelsOf, Normal;
    var out := Apply(s, addInput, ignoreInput, removeInput, now);
    var next := NextModels(s, out.added, out.dropped);
    StoredListReadsBack(next);
    SameCommas(Normalize(ModelsOf(s.models)), out.added, out.dropped, next);
  }

  lemma {:induction false} SameCommas(origin: seq<string>, added: seq<string>, dropped: seq<string>, next: seq<string>)
    requires SepFree(origin, ',') && Elems(added) !! Elems(dropped)
    requires Elems(next) == (Elems(origin) + Elems(added)) - Elems(dropped)
    ensures SepFree(next, ',') <==> SepFree(added, ',')
  {
    if SepFree(added, ',') {
      forall m | m in next ensures ',' !in m { assert m in Elems(next); }
    }
    if SepFree(next, ',') {
      forall m | m in added ensures ',' !in m { assert m in Elems(next); }
    }
  }

  // ---------------------------------------------------------------------
  // The fixpoint
  // ---------------------------------------------------------------------

  /** The row as a detection with these inputs leaves it. */
  ghost predicate Detected(s: Row, upstream: seq<string>, mapping: map<string, string>, matches: Matcher) {
    && s.detected == PendingAdd(ModelsOf(s.models), upstream, s.ignored, mapping, matches)
    && s.removed == PendingRemove(ModelsOf(s.models), upstream, mapping)
  }

  ghost predicate NothingPending(s: Row, upstream: seq<string>, mapping: map<string, string>, matches: Matcher) {
    && PendingAdd(ModelsOf(s.models), upstream, s.ignored, mapping, matches) == []
    && PendingRemove(ModelsOf(s.models), upstream, mapping) == []
  }

  /** Every ignored upstream name is ignored by an entry that is not itself
      about to be added. */
  ghost predicate StillIgnored(s: Row, upstream: seq<string>, mapping: map<string, string>, matches: Matcher) {
    forall m :: m in Normalize(upstream) && m !in Normalize(ModelsOf(s.models)) && m !in mapping.Values
                && IgnoredByAny(Normalize(s.ignored), m, matches) ==>
      KeptEntryIgnores(s, m, matches)
  }

  ghost predicate KeptEntryIgnores(s: Row, m: string, matches: Matcher) {
    exists e :: e in Normalize(s.ignored) && e !in s.detected && Ignores(e, m, matches)
  }

  function AppliedAll(s: Row, ignoreInput: seq<string>, now: int): Row {
    Apply(s, s.detected, ignoreInput, s.removed, now).row
  }

  /** What applying everything leaves, as sets. */
  lemma {:induction false} AppliedAllMeaning(
    s: Row, upstream: seq<string>, mapping: map<string, string>, matches: Matcher, ignoreInput: seq<string>, now: int)
    requires Detected(s, upstream, mapping, matches)
    ensures var t := AppliedAll(s, ignoreInput, now);
            && t.detected == [] && t.removed == []
            && Normal(t.ignored) && Normalize(t.ignored) == t.ignored
            && (forall e :: e in t.ignored <==> e in Normalize(s.ignored) && e !in s.detected)
            && (SepFree(s.detected, ',') ==>
                  forall m :: m in Normalize(ModelsOf(t.models)) <==>
                    m !in s.removed && (m in Normalize(ModelsOf(s.models)) || m in s.detected))
  {
    EveryChangeEndsOnce(s, s.detected, ignoreInput, s.removed, now);
    NextModelsExact(s, s.detected, ignoreInput, s.removed, now);
    AppliedModelsReadBack(s, s.detected, ignoreInput, s.removed, now);
    PendingMeaning(ModelsOf(s.models), upstream, s.ignored, mapping, matches);
    hide Normalize, Without, Merge, Subtract, Intersect, ApplySelected, ModelsOf, Normal, PendingAdd, PendingRemove,
        Apply, NextModels;
    NormalizeNormal(s.detected);
    NormalizeNormal(s.removed);
    var out := Apply(s, s.detected, ignoreInput, s.removed, now);
    var t := AppliedAll(s, ignoreInput, now);
    NormalizeNormal(t.ignored);
    assert Elems(s.detected) !! Elems(s.removed) by {
      forall m | m in Elems(s.detected) ensures m !in Elems(s.removed) { assert m in s.detected; }
    }
    forall e ensures e in t.ignored <==> e in Normalize(s.ignored) && e !in s.detected {
      assert e in Elems(t.ignored) <==> e in t.ignored;
    }
    NoneMeansEmpty(t.detected);
    NoneMeansEmpty(t.removed);
    if SepFree(s.detected, ',') {
      forall m | m in out.added ensures ',' !in m { assert m in Elems(out.added); }
      var next := NextModels(s, out.added, out.dropped);
      forall m ensures m in next <==> m !in s.removed && (m in Normalize(ModelsOf(s.models)) || m in s.detected) {
        assert m in Elems(next) <==> m in next;
      }
    }
  }

  lemma {:induction false} NoneMeansEmpty(l: seq<string>)
    ensures l == [] <==> Elems(l) == {}
  {
    if l != [] { assert l[0] in Elems(l); }
  }

  /** An entry that may or may not be kept, when nothing else changes. */
  lemma {:induction false} IgnoredAfter(s: Row, t: Row, m: string, matches: Matcher)
    requires Normalize(t.ignored) == t.ignored
    requires forall e :: e in t.ignored <==> e in Normalize(s.ignored) && e !in s.detected
    ensures IgnoredByAny(Normalize(t.ignored), m, matches) <==> KeptEntryIgnores(s, m, matches)
    ensures KeptEntryIgnores(s, m, matches) ==> IgnoredByAny(Normalize(s.ignored), m, matches)
  {
    hide Normalize, Ignores;
  }

  /** Detecting, applying everything detected and detecting again with the same
      upstream list and mapping finds nothing pending, exactly when no added
      name holds a comma and every ignored upstream name keeps an ignoring entry.
      It does not matter what else was asked to be ignored. */
  lemma {:induction false} ReconciliationFixpoint(
    s: Row, upstream: seq<string>, mapping: map<string, string>, matches: Matcher, ignoreInput: seq<string>, now: int)
    requires Detected(s, upstream, mapping, matches)
    ensures NothingPending(AppliedAll(s, ignoreInput, now), upstream, mapping, matches) <==>
              SepFree(s.detected, ',') && StillIgnored(s, upstream, mapping, matches)
  {
    var t := AppliedAll(s, ignoreInput, now);
    AppliedAllMeaning(s, upstream, mapping, matches, ignoreInput, now);
    PendingMeaning(ModelsOf(s.models), upstream, s.ignored, mapping, matches);
    PendingMeaning(ModelsOf(t.models), upstream, t.ignored, mapping, matches);
    OriginCommaFree(t);
    hide Normalize, ModelsOf, Normal, PendingAdd, PendingRemove, AppliedAll, IgnoredByAny, KeptEntryIgnores;
    forall m ensures IgnoredByAny(Normalize(t.ignored), m, matches) <==> KeptEntryIgnores(s, m, matches)
             ensures KeptEntryIgnores(s, m, matches) ==> IgnoredByAny(Normalize(s.ignored), m, matches)
    {
      IgnoredAfter(s, t, m, matches);
    }
    var again := PendingAdd(ModelsOf(t.models), upstream, t.ignored, mapping, matches);
    if SepFree(s.detected, ',') && StillIgnored(s, upstream, mapping, matches) {
      NoneMeansEmpty(again);
      NoneMeansEmpty(PendingRemove(ModelsOf(t.models), upstream, mapping));
    }
    if NothingPending(t, upstream, mapping, matches) {
      forall m | m in s.detected ensures ',' !in m {
        assert m !in again;
        assert m in Normalize(ModelsOf(t.models));
      }
      forall m | m in Normalize(upstream) && m !in Normalize(ModelsOf(s.models)) && m !in mapping.Values
                 && IgnoredByAny(Normalize(s.ignored), m, matches)
        ensures KeptEntryIgnores(s, m, matches)
      {
        assert m !in s.detected;
        assert m !in Normalize(ModelsOf(t.models));
        assert m !in again;
      }
    }
  }

  /** A check, applying everything it found, and a check again: the second check
      finds nothing, exactly under those two conditions, whoever asks for the
      checks as long as neither is skipped nor applies anything by itself. */
  lemma {:induction false} CheckApplyCheck(
    s: Row, upstream: seq<string>, mapping: map<string, string>, matches: Matcher, ignoreInput: seq<string>,
    force: bool, forceAgain: bool, allowAutoApply: bool, now: int, applied: int, later: int, minInterval: int)
    requires force || s.lastCheck <= 0 || now - s.lastCheck >= minInterval
    requires forceAgain || applied <= 0 || later - applied >= minInterval
    requires !(allowAutoApply && s.autoSync)
    ensures var found := Check(s, Some(upstream), mapping, matches, force, allowAutoApply, now, minInterval).row;
            var t := Apply(found, found.detected, ignoreInput, found.removed, applied).row;
            var again := Check(t, Some(upstream), mapping, matches, forceAgain, allowAutoApply, later, minInterval).row;
            again.detected == [] && again.removed == [] <==>
            SepFree(found.detected, ',') && StillIgnored(found, upstream, mapping, matches)
  {
    var found := Check(s, Some(upstream), mapping, matches, force, allowAutoApply, now, minInterval).row;
    var t := AppliedAll(found, ignoreInput, applied);
    NextModelsExact(found, found.detected, ignoreInput, found.removed, applied);
    hide Normalize, ModelsOf, PendingAdd, PendingRemove, Apply, StillIgnored;
    assert Detected(found, upstream, mapping, matches);
    ReconciliationFixpoint(found, upstream, mapping, matches, ignoreInput, applied);
  }

  /** With comma-free upstream names, none of them starting "regex:", the
      fixpoint is always reached. */
  lemma {:induction false} PlainNamesReachFixpoint(
    s: Row, upstream: seq<string>, mapping: map<string, string>, matches: Matcher, ignoreInput: seq<string>, now: int)
    requires Detected(s, upstream, mapping, matches)
    requires SepFree(upstream, ',') && forall m :: m in Normalize(upstream) ==> !(REGEX_PREFIX <= m)
    ensures NothingPending(AppliedAll(s, ignoreInput, now), upstream, mapping, matches)
  {
    ReconciliationFixpoint(s, upstream, mapping, matches, ignoreInput, now);
    PendingMeaning(ModelsOf(s.models), upstream, s.ignored, mapping, matches);
    NormalizeSepFree(upstream, ',');
    hide Normalize, ModelsOf, Normal, PendingAdd, PendingRemove, AppliedAll, NothingPending;
    forall m | m in Normalize(upstream) && m !in Normalize(ModelsOf(s.models)) && m !in mapping.Values
               && IgnoredByAny(Normalize(s.ignored), m, matches)
      ensures KeptEntryIgnores(s, m, matches)
    {
      var e :| e in Normalize(s.ignored) && Ignores(e, m, matches);
      if e in s.detected {
        assert e in Normalize(upstream);
        assert e == m;
      }
    }
  }

  lemma {:induction false} NoLocalModels()
    ensures ModelsOf("") == [] && Normalize([]) == []
  {
  }

  lemma {:induction false} SingleClean(m: string)
    requires IsClean(m)
    ensures Normalize([m]) == [m] && Normal([m])
  {
    NormalizeNormal([m]);
  }

  /** The additions a detection over a row finds. */
  function Additions(s: Row, upstream: seq<string>, mapping: map<string, string>, matches: Matcher): seq<string> {
    PendingAdd(ModelsOf(s.models), upstream, s.ignored, mapping, matches)
  }

  /** A detected name holding a comma is pending again after everything was
      applied, from whatever row; and so after every further detection and
      application. */
  lemma {:induction false} CommaStaysPending(
    s: Row, upstream: seq<string>, mapping: map<string, string>, matches: Matcher,
    ignoreInput: seq<string>, now: int, name: string)
    requires Detected(s, upstream, mapping, matches) && name in s.detected && ',' in name
    ensures name in Additions(AppliedAll(s, ignoreInput, now), upstream, mapping, matches)
  {
    var t := AppliedAll(s, ignoreInput, now);
    AppliedAllMeaning(s, upstream, mapping, matches, ignoreInput, now);
    PendingMeaning(ModelsOf(s.models), upstream, s.ignored, mapping, matches);
    PendingMeaning(ModelsOf(t.models), upstream, t.ignored, mapping, matches);
    OriginCommaFree(t);
    hide Normalize, ModelsOf, Normal, PendingAdd, PendingRemove, AppliedAll, IgnoredByAny, KeptEntryIgnores;
    IgnoredAfter(s, t, name, matches);
  }

  /** An ignored name none of whose ignoring entries is kept is pending after
      everything was applied, when no added name holds a comma. */
  lemma {:induction false} UnkeptEntryReveals(
    s: Row, upstream: seq<string>, mapping: map<string, string>, matches: Matcher,
    ignoreInput: seq<string>, now: int, name: string)
    requires Detected(s, upstream, mapping, matches) && SepFree(s.detected, ',')
    requires name in Normalize(upstream) && name !in Normalize(ModelsOf(s.models)) && name !in mapping.Values
    requires name !in s.detected && !KeptEntryIgnores(s, name, matches)
    ensures name in Additions(AppliedAll(s, ignoreInput, now), upstream, mapping, matches)
  {
    var t := AppliedAll(s, ignoreInput, now);
    AppliedAllMeaning(s, upstream, mapping, matches, ignoreInput, now);
    PendingMeaning(ModelsOf(t.models), upstream, t.ignored, mapping, matches);
    hide Normalize, ModelsOf, Normal, PendingAdd, PendingRemove, AppliedAll, IgnoredByAny, KeptEntryIgnores;
    IgnoredAfter(s, t, name, matches);
  }

  /** The upstream name "a,b" is detected, and is pending again after it was
      applied. */
  lemma {:induction false} CommaNameStaysPending(s: Row, matches: Matcher, now: int)
    requires s.models == "" && s.ignored == [] && Detected(s, ["a,b"], map[], matches)
    ensures "a,b" in s.detected
    ensures "a,b" in Additions(AppliedAll(s, [], now), ["a,b"], map[], matches)
  {
    assert "a,b"[1] == ',';
    CommaNameClean();
    hide *;
    OnlyNameDetected(s, "a,b", matches);
    CommaStaysPending(s, ["a,b"], map[], matches, [], now, "a,b");
  }

  lemma {:induction false} CommaNameClean()
    ensures IsClean("a,b")
  {
  }

  lemma {:induction false} OnlyNameDetected(s: Row, name: string, matches: Matcher)
    requires IsClean(name) && s.models == "" && s.ignored == [] && Detected(s, [name], map[], matches)
    ensures name in s.detected
  {
    NoLocalModels();
    SingleClean(name);
    PendingMeaning(ModelsOf(s.models), [name], s.ignored, map[], matches);
    hide Normalize, ModelsOf, Normal, IsClean, PendingAdd, PendingRemove;
    assert name in [name];
  }

  lemma {:induction false} PatternRevealsIgnored(s: Row, entry: string, name: string, matches: Matcher, now: int)
    requires IsClean(entry) && IsClean(name) && entry != name && ',' !in entry
    requires Ignores(entry, name, matches) && !Ignores(entry, entry, matches)
    requires s.models == "" && s.ignored == [entry] && Detected(s, [entry, name], map[], matches)
    ensures name !in s.detected && name in Additions(AppliedAll(s, [], now), [entry, name], map[], matches)
  {
    hide Normalize, ModelsOf, Normal, IsClean, PendingAdd, PendingRemove, AppliedAll, NothingPending, Ignores,
        Additions;
    var upstream := [entry, name];
    NoLocalModels();
    SingleClean(entry);
    TwoClean(entry, name);
    PendingMeaning(ModelsOf(s.models), upstream, s.ignored, map[], matches);
    assert entry in upstream && entry in s.detected;
    assert upstream[1] in upstream;
    assert entry in s.ignored;
    assert IgnoredByAny(s.ignored, name, matches);
    assert !KeptEntryIgnores(s, name, matches);
    forall m | m in s.detected ensures ',' !in m { assert m in upstream; }
    UnkeptEntryReveals(s, upstream, map[], matches, [], now, name);
  }

  /** An upstream model named like the ignore pattern "regex:^x" undoes it: adding
      the model drops the entry, and "xy", which the entry hid, is pending. */
  lemma {:induction false} PatternNameRevealsIgnored(s: Row, matches: Matcher, now: int)
    requires s.models == "" && s.ignored == ["regex:^x"] && matches("^x", "xy") && !matches("^x", "regex:^x")
    requires Detected(s, ["regex:^x", "xy"], map[], matches)
    ensures "xy" !in s.detected
    ensures "xy" in Additions(AppliedAll(s, [], now), ["regex:^x", "xy"], map[], matches)
  {
    PatternEntry(matches);
    PatternNamesClean();
    hide *;
    PatternRevealsIgnored(s, "regex:^x", "xy", matches, now);
  }

  lemma {:induction false} PatternNamesClean()
    ensures IsClean("regex:^x") && IsClean("xy") && ',' !in "regex:^x" && "regex:^x" != "xy"
  {
    assert |"regex:^x"| == 8 && |"xy"| == 2;
  }

  lemma {:induction false} TwoClean(a: string, b: string)
    requires IsClean(a) && IsClean(b) && a != b
    ensures Normalize([a, b]) == [a, b]
  {
    NormalizeNormal([a, b]);
  }

  lemma {:induction false} PatternEntry(matches: Matcher)
    requires matches("^x", "xy") && !matches("^x", "regex:^x")
    ensures Ignores("regex:^x", "xy", matches) && !Ignores("regex:^x", "regex:^x", matches)
  {
    assert "regex:^x"[|REGEX_PREFIX|..] == "^x";
    assert REGEX_PREFIX <= "regex:^x";
  }

  /** Automatic synchronising: after a check that adds the pending names, a
      second one finds no additions exactly when none of them holds a comma; the
      removals it finds are those already recorded. */
  lemma {:induction false} AutoSyncSettles(
    s: Row, upstream: seq<string>, mapping: map<string, string>, matches: Matcher, now: int, minInterval: int)
    requires s.autoSync
    ensures var adds := PendingAdd(ModelsOf(s.models), upstream, s.ignored, mapping, matches);
            var t := Check(s, Some(upstream), mapping, matches, true, true, now, minInterval).row;
            && t.detected == [] && t.ignored == s.ignored
            && (PendingAdd(ModelsOf(t.models), upstream, t.ignored, mapping, matches) == [] <==> SepFree(adds, ','))
            && (SepFree(adds, ',') ==> Elems(PendingRemove(ModelsOf(t.models), upstream, mapping)) == Elems(t.removed))
  {
    var adds := PendingAdd(ModelsOf(s.models), upstream, s.ignored, mapping, matches);
    PendingMeaning(ModelsOf(s.models), upstream, s.ignored, mapping, matches);
    if adds == [] {
      assert SepFree(adds, ',');
    } else {
      var t := Check(s, Some(upstream), mapping, matches, true, true, now, minInterval).row;
      AutoAddedModels(s, upstream, mapping, matches, now, minInterval);
      PendingMeaning(ModelsOf(t.models), upstream, t.ignored, mapping, matches);
      OriginCommaFree(t);
      hide Normalize, ModelsOf, Normal, PendingAdd, PendingRemove, Check, IgnoredByAny;
      var again := PendingAdd(ModelsOf(t.models), upstream, t.ignored, mapping, matches);
      NoneMeansEmpty(again);
      if again == [] {
        forall m | m in adds ensures ',' !in m {
          assert m !in Elems(again);
          assert m in Normalize(ModelsOf(t.models));
        }
      }
    }
  }

  /** What the automatic additions leave. */
  lemma {:induction false} AutoAddedModels(
    s: Row, upstream: seq<string>, mapping: map<string, string>, matches: Matcher, now: int, minInterval: int)
    requires s.autoSync && PendingAdd(ModelsOf(s.models), upstream, s.ignored, mapping, matches) != []
    ensures var adds := PendingAdd(ModelsOf(s.models), upstream, s.ignored, mapping, matches);
            var out := Check(s, Some(upstream), mapping, matches, true, true, now, minInterval);
            && out.changed && out.autoAdded == |adds|
            && out.row.detected == [] && out.row.ignored == s.ignored
            && out.row.removed == PendingRemove(ModelsOf(s.models), upstream, mapping)
            && (SepFree(adds, ',') ==>
                  forall m :: m in Normalize(ModelsOf(out.row.models)) <==>
                    m in Normalize(ModelsOf(s.models)) || m in adds)
  {
    var adds := PendingAdd(ModelsOf(s.models), upstream, s.ignored, mapping, matches);
    var origin := Normalize(ModelsOf(s.models));
    PendingMeaning(ModelsOf(s.models), upstream, s.ignored, mapping, matches);
    MergedAll(s, upstream, mapping, matches);
    hide Normalize, Without, ModelsOf, Normal, PendingAdd, PendingRemove, IgnoredByAny;
    NormalizeNormal(ModelsOf(s.models));
    NormalizeNormal(origin);
    NormalizeNormal(adds);
    var merged := Merge(origin, adds);
    MergeNormal(origin, adds);
    StoredListReadsBack(merged);
    OriginCommaFree(s);
    if SepFree(adds, ',') {
      forall m | m in merged ensures ',' !in m {}
    }
  }

  // ---------------------------------------------------------------------
  // The channel, updated in place
  // ---------------------------------------------------------------------

  /** mergeModelNames, with its loop. */
  method MergeModelNames(base: seq<string>, appended: seq<string>) returns (merged: seq<string>)
    ensures merged == Merge(base, appended)
  {
    hide Normalize, Normal;
    merged := Normalize(base);
    var seen := Elems(merged);
    var more := Normalize(appended);
    NormalizeNormal(appended);
    ghost var first := merged;
    for i := 0 to |more|
      invariant merged == first + Without(more[..i], Elems(first))
      invariant seen == Elems(first) + Elems(more[..i])
    {
      var model := more[i];
      NotYetSeen(more, i);
      assert more[..i + 1] == more[..i] + [model];
      assert more[..i + 1][..i] == more[..i];
      if model in seen {
        continue;
      }
      seen := seen + {model};
      merged := merged + [model];
    }
    assert more[..|more|] == more;
  }

  lemma {:induction false} NotYetSeen(l: seq<string>, i: nat)
    requires Normal(l) && i < |l|
    ensures l[i] !in Elems(l[..i])
  {
  }

  class ChannelModels {
    var models: string
    var ignored: seq<string>
    var detected: seq<string>
    var removed: seq<string>
    var lastCheck: int
    var autoSync: bool

    ghost function View(): Row
      reads this
    {
      Row(models, ignored, detected, removed, lastCheck, autoSync)
    }

    constructor (row: Row)
      ensures View() == row
    {
      models, ignored, detected, removed := row.models, row.ignored, row.detected, row.removed;
      lastCheck, autoSync := row.lastCheck, row.autoSync;
    }

    method ApplyUpdates(addInput: seq<string>, ignoreInput: seq<string>, removeInput: seq<string>, now: int)
      returns (added: seq<string>, dropped: seq<string>, changed: bool)
      modifies this
      ensures Outcome(View(), added, dropped, changed) == Apply(old(View()), addInput, ignoreInput, removeInput, now)
    {
      hide Normalize, Subtract, Intersect, ApplySelected, Merge, ModelsOf;
      var pendingAdd := Normalize(detected);
      var pendingRemove := Normalize(removed);
      added := Intersect(addInput, pendingAdd);
      var ignore := Intersect(ignoreInput, pendingAdd);
      dropped := Intersect(removeInput, pendingRemove);
      dropped := Subtract(dropped, added);
      var origin := Normalize(ModelsOf(models));
      var next := ApplySelected(origin, added, dropped);
      changed := origin != next;
      if changed {
        models := Join(next, ',');
      }
      ignored := MergeModelNames(ignored, ignore);
      if |added| > 0 {
        ignored := Subtract(ignored, added);
      }
      detected := Subtract(pendingAdd, added + ignore);
      removed := Subtract(pendingRemove, dropped);
      lastCheck := now;
    }

    method CheckUpdates(fetched: Option<seq<string>>, mapping: map<string, string>, matches: Matcher,
                        force: bool, allowAutoApply: bool, now: int, minInterval: int)
      returns (changed: bool, autoAdded: int, ok: bool)
      modifies this
      ensures CheckOutcome(View(), changed, autoAdded, ok) ==
                Check(old(View()), fetched, mapping, matches, force, allowAutoApply, now, minInterval)
      ensures !force && old(lastCheck) > 0 && now - old(lastCheck) < minInterval ==>
                View() == old(View()) && !changed && autoAdded == 0 && ok
      ensures !(!force && old(lastCheck) > 0 && now - old(lastCheck) < minInterval) ==>
                && lastCheck == now && ok == fetched.Some?
                && (fetched.None? ==> View() == old(View()).(lastCheck := now) && !changed && autoAdded == 0)
                && (fetched.Some? ==>
                      Checked(old(View()), View(), changed, autoAdded, fetched.value, mapping, matches,
                              allowAutoApply && old(autoSync)))
    {
      CheckExact(View(), fetched, mapping, matches, force, allowAutoApply, now, minInterval);
      hide FoundAdditions, FoundRemovals, Checked;
      hide Normalize, Merge, ModelsOf, PendingAdd, PendingRemove;
      changed, autoAdded, ok := false, 0, true;
      if !force && lastCheck > 0 && now - lastCheck < minInterval {
        return;
      }
      lastCheck := now;
      if fetched.None? {
        return false, 0, false;
      }
      var adds := PendingAdd(ModelsOf(models), fetched.value, ignored, mapping, matches);
      var removes := PendingRemove(ModelsOf(models), fetched.value, mapping);
      if allowAutoApply && autoSync && |adds| > 0 {
        var origin := Normalize(ModelsOf(models));
        var merged := MergeModelNames(origin, adds);
        if |merged| > |origin| {
          models := Join(merged, ',');
          autoAdded := |merged| - |origin|;
          changed := true;
        }
        detected := [];
      } else {
        detected := adds;
      }
      removed := removes;
    }
  }
}
