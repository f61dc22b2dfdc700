/** The channel object of the key-management code: its methods change the
    fields in place and are proved against the value-level actions. */
module MultiKeyChannel {
  import opened Wrappers
  import opened Text
  import opened ChannelStatus
  import opened KeyPolling
  import opened MultiKey

  datatype KeyChoice = Chosen(key: string, index: nat) | NoKeysAvailable | NoEnabledKeys | NotCached

  lemma {:induction false} SelectSnoc(keys: seq<string>, survivors: seq<nat>, p: nat)
    requires p < |keys| && forall j :: 0 <= j < |survivors| ==> survivors[j] < |keys|
    ensures Select(keys, survivors + [p]) == Select(keys, survivors) + [keys[p]]
  {
    if survivors == [] {
      assert survivors + [p] == [p];
      assert Select(keys, [p][1..]) == [];
    } else {
      SelectSnoc(keys, survivors[1..], p);
      assert (survivors + [p])[1..] == survivors[1..] + [p];
    }
  }

  lemma {:induction false} ReindexSnoc<V>(m: map<int, V>, survivors: seq<nat>, p: nat)
    ensures Reindex(m, survivors + [p]) ==
              if p in m then Reindex(m, survivors)[|survivors| := m[p]] else Reindex(m, survivors)
  {
    var all := survivors + [p];
    assert forall j :: 0 <= j < |survivors| ==> all[j] == survivors[j];
    assert all[|survivors|] == p;
  }

  lemma {:induction false} StatusSnoc(m: map<int, int>, survivors: seq<nat>, p: nat)
    ensures OnlyDisabled(Reindex(m, survivors + [p])) ==
              if p in m && m[p] != STATUS_ENABLED then OnlyDisabled(Reindex(m, survivors))[|survivors| := m[p]]
              else OnlyDisabled(Reindex(m, survivors))
  {
    ReindexSnoc(m, survivors, p);
  }

  lemma {:induction false} NothingYet<V>(m: map<int, V>, statusList: map<int, int>, keys: seq<string>)
    ensures Reindex(m, []) == map[] && OnlyDisabled(Reindex(statusList, [])) == map[] && Select(keys, []) == []
  {
  }

  lemma {:induction false} TrimmedUnique(all: map<int, int>, size: nat, m: map<int, int>)
    requires forall i :: i in all ==> (i in m <==> i < size)
    requires forall i :: i in m ==> i in all && m[i] == all[i]
    ensures m == Trimmed(all, size)
  {
    var t := Trimmed(all, size);
    assert forall i :: i in m ==> i in t && t[i] == m[i];
    assert forall i :: i in t ==> i in m;
    assert m.Keys == t.Keys;
  }

  class Channel {
    var key: string
    var status: int
    var isMultiKey: bool
    var multiKeySize: nat
    var statusList: map<int, int>
    var disabledTime: map<int, int>
    var disabledReason: map<int, string>
    var pollingIndex: int
    var mode: Mode

    ghost function View(): Info
      reads this
    {
      Info(key, status, isMultiKey, multiKeySize, statusList, disabledTime, disabledReason, pollingIndex, mode)
    }

    constructor (info: Info)
      ensures View() == info
    {
      key, status, isMultiKey, multiKeySize := info.key, info.status, info.isMultiKey, info.size;
      statusList, disabledTime, disabledReason := info.statusList, info.times, info.reasons;
      pollingIndex, mode := info.pollingIndex, info.mode;
    }

    /** GetNextEnabledKey.  `cached` is the channel the cache holds under this
        id, normally this very object; its saved position is where polling
        starts, and this object's position is what is updated. */
    method GetNextEnabledKey(cached: Channel?, random: nat) returns (r: KeyChoice)
      modifies this`pollingIndex
      ensures !isMultiKey ==> r == Chosen(key, 0)
      ensures isMultiKey ==>
                var n := |KeysOf(key)|;
                var enabled := EnabledUpTo(statusList, n);
                && (r == NoKeysAvailable <==> n == 0)
                && (r == NoEnabledKeys <==> n > 0 && enabled == [])
                && (r == NotCached <==> enabled != [] && mode.Polling? && cached == null)
                && (r.Chosen? ==>
                      && r.index < n && r.key == KeysOf(key)[r.index]
                      && enabled != []
                      && match mode
                         case Random => r.index == enabled[random % |enabled|]
                         case Polling =>
                           && cached != null && r.index == PollIndex(statusList, n, old(cached.pollingIndex))
                           && FirstFrom(statusList, n,
                                        if 0 <= old(cached.pollingIndex) < n then old(cached.pollingIndex) else 0,
                                        r.index)
                         case _ => r.index == enabled[0])
      ensures pollingIndex == if r.Chosen? && isMultiKey && mode.Polling? then NextIndex(r.index, |KeysOf(key)|)
          else old(pollingIndex)
    {
      if !isMultiKey {
        return Chosen(key, 0);
      }
      var keys := KeysOf(key);
      if |keys| == 0 {
        return NoKeysAvailable;
      }
      var enabledIdx := [];
      for i := 0 to |keys|
        invariant enabledIdx == EnabledUpTo(statusList, i)
      {
        if IsEnabled(statusList, i) {
          enabledIdx := enabledIdx + [i];
        }
      }
      if |enabledIdx| == 0 {
        return NoEnabledKeys;
      }
      EnabledUpToSound(statusList, |keys|);
      hide KeysOf;
      match mode {
        case Random =>
          var selectedIdx := enabledIdx[random % |enabledIdx|];
          return Chosen(keys[selectedIdx], selectedIdx);
        case Polling =>
          if cached == null {
            return NotCached;
          }
          var start := cached.pollingIndex;
          if start < 0 || start >= |keys| {
            start := 0;
          }
          var idx := ScanFrom(start, |keys|, cached.pollingIndex);
          pollingIndex := (idx + 1) % |keys|;
          return Chosen(keys[idx], idx);
        case _ =>
          return Chosen(keys[enabledIdx[0]], enabledIdx[0]);
      }
    }

    /** The polling loop: the first enabled position from `start` on, wrapping
        around.  The fallback after it is never reached. */
    method ScanFrom(start: nat, n: nat, ghost saved: int) returns (idx: nat)
      requires start < n && start == StartOf(saved, n) && EnabledUpTo(statusList, n) != []
      ensures idx < n && idx == PollIndex(statusList, n, saved)
      ensures FirstFrom(statusList, n, start, idx)
    {
      hide EnabledUpTo, PollIndex;
      for i := 0 to n
        invariant forall j: nat :: j < n && Ahead(start, j, n) < i ==> !IsEnabled(statusList, j)
      {
        idx := if start + i < n then start + i else start + i - n;
        if IsEnabled(statusList, idx) {
          PollTakesFirst(statusList, n, saved, idx);
          return;
        }
      }
      NobodyEnabled(statusList, n);
      assert false;
    }

    /** Channel.Update, over the key stored in the database. */
    method Update(storedKey: string)
      modifies this
      ensures View() == UpdateRow(old(View()), storedKey)
      ensures key == (if old(key) != "" then old(key) else storedKey)
      ensures View().(key := old(key), size := old(multiKeySize), statusList := old(statusList)) == old(View())
      ensures multiKeySize == if isMultiKey then |KeysOf(key)| else old(multiKeySize)
      ensures forall i :: i in statusList <==> i in old(statusList) && (isMultiKey ==> i < multiKeySize)
      ensures forall i :: i in statusList ==> statusList[i] == old(statusList)[i]
    {
      hide KeysOf;
      if key == "" {
        key := storedKey;
      }
      if isMultiKey {
        multiKeySize := |KeysOf(key)|;
        DropStatusesPastEnd();
      }
    }

    /** The clean-up loop of Update, over the status map in any order. */
    method DropStatusesPastEnd()
      modifies this`statusList
      ensures statusList == Trimmed(old(statusList), multiKeySize)
    {
      var remaining: set<int> := statusList.Keys;
      ghost var all := statusList;
      while remaining != {}
        invariant remaining <= statusList.Keys <= all.Keys
        invariant forall i :: i in statusList ==> statusList[i] == all[i]
        invariant forall i :: i in all && i !in remaining ==> (i in statusList <==> i < multiKeySize)
        decreases |remaining|
      {
        var i := AnyOf(remaining);
        if i >= multiKeySize {
          statusList := statusList - {i};
        }
        remaining := remaining - {i};
      }
      TrimmedUnique(all, multiKeySize, statusList);
    }

    /** handlerMultiKeyUpdate. */
    method HandlerMultiKeyUpdate(usingKey: string, newStatus: int, reason: string, now: int)
      modifies this
      ensures View() == HandleStatus(old(View()), usingKey, newStatus, reason, now)
    {
      var keys := KeysOf(key);
      hide KeysOf, FirstIndexOf, Marked;
      if |keys| == 0 {
        status := newStatus;
        return;
      }
      var keyIndex := IndexOfKey(keys, usingKey);
      RecordStatus(keyIndex, newStatus, reason, now);
      if |statusList| >= multiKeySize {
        status := AUTO_DISABLED;
      }
    }

    /** The record one key's new status leaves: none when it is enabled. */
    method RecordStatus(keyIndex: nat, newStatus: int, reason: string, now: int)
      modifies this`statusList, this`disabledReason, this`disabledTime
      ensures View() == Marked(old(View()), keyIndex, newStatus, reason, now)
    {
      if newStatus == STATUS_ENABLED {
        statusList := statusList - {keyIndex};
      } else {
        statusList := statusList[keyIndex := newStatus];
        disabledReason := disabledReason[keyIndex := reason];
        disabledTime := disabledTime[keyIndex := now];
      }
    }

    /** The search loop of handlerMultiKeyUpdate: 0 when the key is missing. */
    method IndexOfKey(keys: seq<string>, usingKey: string) returns (keyIndex: nat)
      ensures keyIndex == FirstIndexOf(keys, usingKey)
    {
      for i := 0 to |keys|
        invariant usingKey !in keys[..i]
      {
        var k := keys[i];
        if k == usingKey {
          FirstIndexUnique(keys, usingKey, i);
          return i;
        }
        assert keys[..i + 1] == keys[..i] + [k];
      }
      assert keys[..|keys|] == keys;
      return 0;
    }

    /** The single-key branch of the enable and disable actions: an error when the
        channel has that status already. */
    method SetStatus(newStatus: int) returns (ok: bool)
      modifies this`status
      ensures ok <==> old(status) != newStatus
      ensures status == newStatus
    {
      if status == newStatus {
        return false;
      }
      status := newStatus;
      return true;
    }

    /** The disable_key action. */
    method DisableKeyAt(keyIndex: int) returns (ok: bool)
      modifies this
      ensures ok == Apply(old(View()), DisableKey(keyIndex)).Some?
      ensures View() == Step(old(View()), DisableKey(keyIndex))
    {
      hide KeysOf, UpdateRow;
      if !isMultiKey {
        if keyIndex != 0 {
          return false;
        }
        ok := SetStatus(MANUALLY_DISABLED);
        return;
      }
      if keyIndex < 0 || keyIndex >= multiKeySize {
        return false;
      }
      var storedKey := key;
      statusList := statusList[keyIndex := MANUALLY_DISABLED];
      Update(storedKey);
      return true;
    }

    /** The enable_key action. */
    method EnableKeyAt(keyIndex: int) returns (ok: bool)
      modifies this
      ensures ok == Apply(old(View()), EnableKey(keyIndex)).Some?
      ensures View() == Step(old(View()), EnableKey(keyIndex))
    {
      hide KeysOf, UpdateRow;
      if !isMultiKey {
        if keyIndex != 0 {
          return false;
        }
        ok := SetStatus(STATUS_ENABLED);
        return;
      }
      if keyIndex < 0 || keyIndex >= multiKeySize {
        return false;
      }
      var storedKey := key;
      statusList := statusList - {keyIndex};
      disabledTime := disabledTime - {keyIndex};
      disabledReason := disabledReason - {keyIndex};
      Update(storedKey);
      return true;
    }

    /** The enable_all_keys action. */
    method EnableEveryKey() returns (ok: bool)
      modifies this
      ensures ok == Apply(old(View()), EnableAllKeys).Some?
      ensures View() == Step(old(View()), EnableAllKeys)
    {
      hide KeysOf, UpdateRow;
      if !isMultiKey {
        ok := SetStatus(STATUS_ENABLED);
        return;
      }
      var storedKey := key;
      statusList, disabledTime, disabledReason := map[], map[], map[];
      Update(storedKey);
      return true;
    }

    /** The loop of disable_all_keys. */
    method DisableLoop() returns (m: map<int, int>, disabledCount: nat)
      ensures m == DisabledAll(statusList, multiKeySize)
      ensures disabledCount == 0 <==> m == statusList
    {
      m, disabledCount := statusList, 0;
      for i := 0 to multiKeySize
        invariant m == DisabledAll(statusList, i)
        invariant disabledCount == 0 <==> m == statusList
        invariant KeepsDisabled(statusList, m)
      {
        if StatusAt(m, i) == STATUS_ENABLED {
          DisableChanges(statusList, m, i);
          m := m[i := MANUALLY_DISABLED];
          disabledCount := disabledCount + 1;
        }
      }
    }

    /** The disable_all_keys action. */
    method DisableEveryKey() returns (ok: bool)
      modifies this
      ensures ok == Apply(old(View()), DisableAllKeys).Some?
      ensures View() == Step(old(View()), DisableAllKeys)
    {
      hide KeysOf, UpdateRow, DisabledAll, Apply;
      DisableAllOutcome(View());
      if !isMultiKey {
        ok := SetStatus(MANUALLY_DISABLED);
        return;
      }
      var storedKey := key;
      var m, disabledCount := DisableLoop();
      if disabledCount == 0 {
        return false;
      }
      statusList := m;
      Update(storedKey);
      return true;
    }

    /** The loop of delete_key: the other keys and their records, re-indexed. */
    method OtherKeys(keyIndex: int)
      returns (remainingKeys: seq<string>, newStatusList: map<int, int>,
               newDisabledTime: map<int, int>, newDisabledReason: map<int, string>)
      ensures var kept := AllBut(|KeysOf(key)|, keyIndex);
              && remainingKeys == Select(KeysOf(key), kept)
              && newStatusList == OnlyDisabled(Reindex(statusList, kept))
              && newDisabledTime == Reindex(disabledTime, kept)
              && newDisabledReason == Reindex(disabledReason, kept)
    {
      var keys := KeysOf(key);
      hide KeysOf, Select, Reindex, OnlyDisabled;
      remainingKeys, newStatusList, newDisabledTime, newDisabledReason := [], map[], map[], map[];
      var newIndex := 0;
      ghost var kept: seq<nat> := [];
      NothingYet(disabledTime, statusList, keys);
      NothingYet(disabledReason, statusList, keys);
      for i := 0 to |keys|
        invariant kept == AllBut(i, keyIndex) && newIndex == |kept|
        invariant remainingKeys == Select(keys, kept)
        invariant newStatusList == OnlyDisabled(Reindex(statusList, kept))
        invariant newDisabledTime == Reindex(disabledTime, kept)
        invariant newDisabledReason == Reindex(disabledReason, kept)
      {
        if i == keyIndex {
          continue;
        }
        SelectSnoc(keys, kept, i);
        StatusSnoc(statusList, kept, i);
        ReindexSnoc(disabledTime, kept, i);
        ReindexSnoc(disabledReason, kept, i);
        remainingKeys := remainingKeys + [keys[i]];
        if i in statusList && statusList[i] != STATUS_ENABLED {
          newStatusList := newStatusList[newIndex := statusList[i]];
        }
        if i in disabledTime {
          newDisabledTime := newDisabledTime[newIndex := disabledTime[i]];
        }
        if i in disabledReason {
          newDisabledReason := newDisabledReason[newIndex := disabledReason[i]];
        }
        kept := kept + [i];
        newIndex := newIndex + 1;
      }
    }

    /** The delete_key action. */
    method DeleteKeyAt(keyIndex: int) returns (ok: bool)
      modifies this
      ensures ok == Apply(old(View()), DeleteKey(keyIndex)).Some?
      ensures View() == Step(old(View()), DeleteKey(keyIndex))
    {
      hide KeysOf, Select, Reindex, OnlyDisabled, AllBut, UpdateRow, Apply, Join;
      DeleteKeyOutcome(View(), keyIndex);
      if !isMultiKey {
        return false;
      }
      if keyIndex < 0 || keyIndex >= multiKeySize {
        return false;
      }
      var storedKey := key;
      var remainingKeys, newStatusList, newDisabledTime, newDisabledReason := OtherKeys(keyIndex);
      if |remainingKeys| == 0 {
        return false;
      }
      key := Join(remainingKeys, '\n');
      multiKeySize := |remainingKeys|;
      statusList, disabledTime, disabledReason := newStatusList, newDisabledTime, newDisabledReason;
      Update(storedKey);
      return true;
    }

    /** The loop of delete_disabled_keys. */
    method KeysNotAutoDisabled()
      returns (remainingKeys: seq<string>, newStatusList: map<int, int>,
               newDisabledTime: map<int, int>, newDisabledReason: map<int, string>, deletedCount: int)
      ensures var kept := NotAutoDisabled(statusList, |KeysOf(key)|);
              && remainingKeys == Select(KeysOf(key), kept)
              && newStatusList == OnlyDisabled(Reindex(statusList, kept))
              && newDisabledTime == Reindex(OnlyAt(disabledTime, statusList), kept)
              && newDisabledReason == Reindex(OnlyAt(disabledReason, statusList), kept)
              && deletedCount == |KeysOf(key)| - |kept|
    {
      var keys := KeysOf(key);
      hide KeysOf, Select, Reindex, OnlyDisabled;
      remainingKeys, newStatusList, newDisabledTime, newDisabledReason := [], map[], map[], map[];
      deletedCount := 0;
      var newIndex := 0;
      ghost var kept: seq<nat> := [];
      ghost var liveTimes := OnlyAt(disabledTime, statusList);
      ghost var liveReasons := OnlyAt(disabledReason, statusList);
      NothingYet(liveTimes, statusList, keys);
      NothingYet(liveReasons, statusList, keys);
      for i := 0 to |keys|
        invariant kept == NotAutoDisabled(statusList, i) && newIndex == |kept|
        invariant deletedCount == i - |kept|
        invariant remainingKeys == Select(keys, kept)
        invariant newStatusList == OnlyDisabled(Reindex(statusList, kept))
        invariant newDisabledTime == Reindex(liveTimes, kept)
        invariant newDisabledReason == Reindex(liveReasons, kept)
      {
        var status := StatusAt(statusList, i);
        if status == AUTO_DISABLED {
          deletedCount := deletedCount + 1;
        } else {
          SelectSnoc(keys, kept, i);
          StatusSnoc(statusList, kept, i);
          ReindexSnoc(liveTimes, kept, i);
          ReindexSnoc(liveReasons, kept, i);
          remainingKeys := remainingKeys + [keys[i]];
          if status != STATUS_ENABLED {
            newStatusList := newStatusList[newIndex := status];
            if i in disabledTime {
              newDisabledTime := newDisabledTime[newIndex := disabledTime[i]];
            }
            if i in disabledReason {
              newDisabledReason := newDisabledReason[newIndex := disabledReason[i]];
            }
          }
          kept := kept + [i];
          newIndex := newIndex + 1;
        }
      }
    }

    /** The update_key action. */
    method UpdateKeyAt(keyIndex: int, value: string) returns (ok: bool)
      modifies this
      ensures ok == Apply(old(View()), UpdateKey(keyIndex, value)).Some?
      ensures View() == Step(old(View()), UpdateKey(keyIndex, value))
    {
      hide KeysOf, TrimSpace, UpdateRow, Join, Apply;
      UpdateKeyOutcome(View(), keyIndex, value);
      var newVal := TrimSpace(value);
      if newVal == "" {
        return false;
      }
      var storedKey := key;
      if !isMultiKey {
        if keyIndex != 0 {
          return false;
        }
        key := newVal;
      } else {
        var keys := KeysOf(key);
        if keyIndex < 0 || keyIndex >= |keys| {
          return false;
        }
        keys := keys[keyIndex := newVal];
        key := Join(keys, '\n');
      }
      Update(storedKey);
      return true;
    }

    /** The loop of add_keys: the lines, trimmed, that are not blank. */
    method KeyLines(text: string) returns (newKeys: seq<string>)
      ensures newKeys == NonBlank(Split(TrimSpace(text), '\n'))
    {
      var newKeyLines := Split(TrimSpace(text), '\n');
      hide TrimSpace, Split;
      newKeys := [];
      for i := 0 to |newKeyLines|
        invariant newKeys == NonBlank(newKeyLines[..i])
      {
        var k := TrimSpace(newKeyLines[i]);
        assert newKeyLines[..i + 1][..i] == newKeyLines[..i];
        if k != "" {
          newKeys := newKeys + [k];
        }
      }
      assert newKeyLines[..|newKeyLines|] == newKeyLines;
    }

    /** The add_keys action. */
    method AddMoreKeys(text: string, newMode: Option<Mode>) returns (ok: bool)
      modifies this
      ensures ok == Apply(old(View()), AddKeys(text, newMode)).Some?
      ensures View() == Step(old(View()), AddKeys(text, newMode))
    {
      hide KeysOf, TrimSpace, Split, NonBlank, UpdateRow, Join, Apply;
      AddKeysOutcome(View(), text, newMode);
      var newKeys := KeyLines(text);
      if |newKeys| == 0 {
        return false;
      }
      var storedKey := key;
      var existingKeys: seq<string> := [];
      if key != "" {
        existingKeys := KeysOf(key);
      }
      var allKeys := existingKeys + newKeys;
      if |allKeys| == 1 {
        key := allKeys[0];
        isMultiKey := false;
      } else {
        key := Join(allKeys, '\n');
        isMultiKey := true;
        if newMode.Some? {
          mode := newMode.value;
        } else if mode.Unset? {
          mode := Random;
        }
        multiKeySize := |allKeys|;
      }
      Update(storedKey);
      return true;
    }

    /** The delete_disabled_keys action. */
    method DeleteAutoDisabledKeys() returns (ok: bool)
      modifies this
      ensures ok == Apply(old(View()), DeleteDisabledKeys).Some?
      ensures View() == Step(old(View()), DeleteDisabledKeys)
    {
      hide KeysOf, Select, Reindex, OnlyDisabled, OnlyAt, NotAutoDisabled, UpdateRow, Apply, Join;
      DeleteDisabledOutcome(View());
      if !isMultiKey {
        return false;
      }
      var storedKey := key;
      var remainingKeys, newStatusList, newDisabledTime, newDisabledReason, deletedCount := KeysNotAutoDisabled();
      if deletedCount == 0 {
        return false;
      }
      key := Join(remainingKeys, '\n');
      multiKeySize := |remainingKeys|;
      statusList, disabledTime, disabledReason := newStatusList, newDisabledTime, newDisabledReason;
      Update(storedKey);
      return true;
    }
  }

  lemma {:induction false} UpdateKeyOutcome(s: Info, i: int, value: string)
    ensures Apply(s, UpdateKey(i, value)) ==
              if TrimSpace(value) == "" || (if s.isMultiKey then !(0 <= i < |KeysOf(s.key)|) else i != 0) then None
              else if s.isMultiKey
              then Some(UpdateRow(s.(key := Join(KeysOf(s.key)[i := TrimSpace(value)], '\n')), s.key))
              else Some(UpdateRow(s.(key := TrimSpace(value)), s.key))
  {
    hide KeysOf, TrimSpace, UpdateRow, Join;
  }

  lemma {:induction false} AddKeysOutcome(s: Info, text: string, newMode: Option<Mode>)
    ensures var added := NonBlank(Split(TrimSpace(text), '\n'));
            Apply(s, AddKeys(text, newMode)) == if added == [] then None else Some(AddKeysRow(s, added, newMode))
  {
    hide NonBlank, Split, TrimSpace, AddKeysRow;
  }

  lemma {:induction false} DisableAllOutcome(s: Info)
    ensures Apply(s, DisableAllKeys) ==
              if !s.isMultiKey then SetSingleStatus(s, MANUALLY_DISABLED)
              else if DisabledAll(s.statusList, s.size) == s.statusList then None
              else Some(UpdateRow(s.(statusList := DisabledAll(s.statusList, s.size)), s.key))
  {
    hide KeysOf, UpdateRow, DisabledAll;
  }

  lemma {:induction false} DeleteKeyOutcome(s: Info, i: int)
    ensures Apply(s, DeleteKey(i)) ==
              if !s.isMultiKey || !InRange(s, i) || AllBut(|KeysOf(s.key)|, i) == [] then None
              else Some(DeleteKeyRow(s, i))
  {
    hide KeysOf, AllBut, DeleteKeyRow;
  }

  lemma {:induction false} DeleteDisabledOutcome(s: Info)
    ensures Apply(s, DeleteDisabledKeys) ==
              if !s.isMultiKey || |NotAutoDisabled(s.statusList, |KeysOf(s.key)|)| == |KeysOf(s.key)| then None
                  else Some(DeleteDisabledRow(s))
  {
    hide KeysOf, NotAutoDisabled, DeleteDisabledRow;
  }

  lemma {:induction false} FirstIndexUnique(keys: seq<string>, usingKey: string, i: nat)
    requires i < |keys| && keys[i] == usingKey && usingKey !in keys[..i]
    ensures FirstIndexOf(keys, usingKey) == i
  {
    if i > 0 {
      var first := keys[0];
      assert keys[..i][0] == first;
      assert keys[1..][..i - 1] == keys[..i][1..];
      FirstIndexUnique(keys[1..], usingKey, i - 1);
      assert keys[1..][i - 1] in keys;
    }
  }

  lemma {:induction false} NobodyEnabled(statusList: map<int, int>, n: nat)
    requires forall j: nat :: j < n ==> !IsEnabled(statusList, j)
    ensures EnabledUpTo(statusList, n) == []
  {
    NoneBetween(statusList, 0, n);
  }

  ghost predicate KeepsDisabled(original: map<int, int>, m: map<int, int>) {
    forall k :: k in original && original[k] != STATUS_ENABLED ==> k in m && m[k] == original[k]
  }

  lemma {:induction false} DisableChanges(original: map<int, int>, m: map<int, int>, i: int)
    requires KeepsDisabled(original, m) && StatusAt(m, i) == STATUS_ENABLED
    ensures m[i := MANUALLY_DISABLED] != original && KeepsDisabled(original, m[i := MANUALLY_DISABLED])
  {
    var changed := m[i := MANUALLY_DISABLED];
    assert i in changed && changed[i] == MANUALLY_DISABLED;
    if i in original { assert original[i] != MANUALLY_DISABLED; }
  }
}
