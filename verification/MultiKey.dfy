/** A channel's key list and the status, time and reason records kept by key
    position: the key-management actions, status updates, and key choice.

    Keys are stored newline-joined.  A missing map and an empty one are the
    same here. */
module MultiKey {
  import opened Wrappers
  import opened Text
  import opened ChannelStatus
  import opened KeyPolling

  datatype Mode = Unset | Random | Polling | OtherMode

  /** The columns of a channel that key management reads and writes. */
  datatype Info = Info(
    key: string,
    status: int,
    isMultiKey: bool,
    size: nat,                       // MultiKeySize
    statusList: map<int, int>,       // MultiKeyStatusList
    times: map<int, int>,            // MultiKeyDisabledTime
    reasons: map<int, string>,       // MultiKeyDisabledReason
    pollingIndex: int,               // MultiKeyPollingIndex
    mode: Mode)

  /** GetKeys. */
  function KeysOf(key: string): seq<string> { Fields(key, '\n') }

  function Trimmed(statusList: map<int, int>, size: nat): map<int, int> {
    map i | i in statusList && i < size :: statusList[i]
  }

  /** Channel.Update on top of the stored key: recount the keys, drop statuses
      past the end, and keep the stored key when the new one is empty. */
  function UpdateRow(s: Info, storedKey: string): Info {
    var key := if s.key != "" then s.key else storedKey;
    if s.isMultiKey then
      var size := |KeysOf(key)|;
      s.(key := key, size := size, statusList := Trimmed(s.statusList, size))
    else s.(key := key)
  }

  // ---------------------------------------------------------------------
  // Re-indexing
  // ---------------------------------------------------------------------

  /** Records moved to new positions: position j takes what position
      survivors[j] had. */
  function Reindex<V>(m: map<int, V>, survivors: seq<nat>): map<int, V> {
    map j: int | 0 <= j < |survivors| && survivors[j] in m :: m[survivors[j]]
  }

  function Select(keys: seq<string>, survivors: seq<nat>): (r: seq<string>)
    requires forall j :: 0 <= j < |survivors| ==> survivors[j] < |keys|
    ensures |r| == |survivors|
    ensures forall j :: 0 <= j < |survivors| ==> r[j] == keys[survivors[j]]
  {
    if survivors == [] then [] else [keys[survivors[0]]] + Select(keys, survivors[1..])
  }

  /** The positions below `n` other than `gone`, in order. */
  function AllBut(n: nat, gone: int): (r: seq<nat>)
    ensures forall j :: 0 <= j < |r| ==> r[j] < n
  {
    if n == 0 then [] else AllBut(n - 1, gone) + if n - 1 == gone then [] else [n - 1]
  }

  /** The positions below `n` that are not auto-disabled, in order. */
  function NotAutoDisabled(statusList: map<int, int>, n: nat): (r: seq<nat>)
    ensures |r| <= n
    ensures forall j :: 0 <= j < |r| ==> r[j] < n && StatusAt(statusList, r[j]) != AUTO_DISABLED
  {
    if n == 0 then []
    else NotAutoDisabled(statusList, n - 1) + if StatusAt(statusList, n - 1) == AUTO_DISABLED then [] else [n - 1]
  }

  function OnlyDisabled(statusList: map<int, int>): map<int, int> {
    map i | i in statusList && statusList[i] != STATUS_ENABLED :: statusList[i]
  }

  function OnlyAt<V>(m: map<int, V>, statusList: map<int, int>): map<int, V> {
    map i | i in m && StatusAt(statusList, i) != STATUS_ENABLED :: m[i]
  }

  // ---------------------------------------------------------------------
  // The actions, on values
  // ---------------------------------------------------------------------

  datatype Action =
    | DisableKey(index: int)
    | EnableKey(index: int)
    | EnableAllKeys
    | DisableAllKeys
    | DeleteKey(index: int)
    | DeleteDisabledKeys
    | AddKeys(text: string, newMode: Option<Mode>)
    | UpdateKey(index: int, value: string)
    | StatusUpdate(usingKey: string, newStatus: int, reason: string, time: int)

  function DisabledAll(statusList: map<int, int>, n: nat): map<int, int> {
    if n == 0 then statusList
    else
      var m := DisabledAll(statusList, n - 1);
      if StatusAt(m, n - 1) == STATUS_ENABLED then m[n - 1 := MANUALLY_DISABLED] else m
  }

  /** The first position of a key, or 0 when the key is not in the list. */
  function FirstIndexOf(keys: seq<string>, usingKey: string): (i: nat)
    ensures keys != [] ==> i < |keys|
    ensures usingKey in keys ==> i < |keys| && keys[i] == usingKey && usingKey !in keys[..i]
    ensures usingKey !in keys ==> i == 0
  {
    if usingKey !in keys then 0
    else if keys[0] == usingKey then 0
    else 1 + FirstIndexOf(keys[1..], usingKey)
  }

  /** One key's new status recorded: enabled keys have no record. */
  function Marked(s: Info, i: nat, newStatus: int, reason: string, time: int): Info {
    if newStatus == STATUS_ENABLED then s.(statusList := s.statusList - {i})
    else s.(statusList := s.statusList[i := newStatus], reasons := s.reasons[i := reason], times := s.times[i := time])
  }

  /** The cardinality test. */
  function Tested(s: Info): Info {
    if |s.statusList| >= s.size then s.(status := AUTO_DISABLED) else s
  }

  /** handlerMultiKeyUpdate. */
  function HandleStatus(s: Info, usingKey: string, newStatus: int, reason: string, time: int): Info {
    var keys := KeysOf(s.key);
    if keys == [] then s.(status := newStatus)
    else Tested(Marked(s, FirstIndexOf(keys, usingKey), newStatus, reason, time))
  }

  /** The single-key branch of the enable and disable actions. */
  function SetSingleStatus(s: Info, status: int): Option<Info> {
    if s.status == status then None else Some(s.(status := status))
  }

  function InRange(s: Info, i: int): bool { 0 <= i < s.size }

  /** The channel a deletion puts together before it is written: the surviving
      keys with the given records re-indexed. */
  function Draft(s: Info, survivors: seq<nat>, times: map<int, int>, reasons: map<int, string>): Info
    requires forall j :: 0 <= j < |survivors| ==> survivors[j] < |KeysOf(s.key)|
  {
    s.(key := Join(Select(KeysOf(s.key), survivors), '\n'), size := |survivors|,
       statusList := OnlyDisabled(Reindex(s.statusList, survivors)),
       times := Reindex(times, survivors), reasons := Reindex(reasons, survivors))
  }

  function DeleteKeyRow(s: Info, i: int): Info {
    UpdateRow(Draft(s, AllBut(|KeysOf(s.key)|, i), s.times, s.reasons), s.key)
  }

  function DeleteDisabledRow(s: Info): Info {
    UpdateRow(Draft(s, NotAutoDisabled(s.statusList, |KeysOf(s.key)|),
                    OnlyAt(s.times, s.statusList), OnlyAt(s.reasons, s.statusList)), s.key)
  }

  function AddKeysRow(s: Info, added: seq<string>, newMode: Option<Mode>): Info
    requires added != []
  {
    var all := (if s.key != "" then KeysOf(s.key) else []) + added;
    if |all| == 1 then UpdateRow(s.(key := all[0], isMultiKey := false), s.key)
    else
      var mode := match newMode case Some(m) => m case None => if s.mode.Unset? then Random else s.mode;
      UpdateRow(s.(key := Join(all, '\n'), isMultiKey := true, mode := mode, size := |all|), s.key)
  }

  /** The outcome of an action: None when the handler answers with an error and
      writes nothing. */
  function Apply(s: Info, a: Action): Option<Info> {
    match a
    case DisableKey(i) =>
      if !s.isMultiKey then (if i != 0 then None else SetSingleStatus(s, MANUALLY_DISABLED))
      else if !InRange(s, i) then None
      else Some(UpdateRow(s.(statusList := s.statusList[i := MANUALLY_DISABLED]), s.key))
    case EnableKey(i) =>
      if !s.isMultiKey then (if i != 0 then None else SetSingleStatus(s, STATUS_ENABLED))
      else if !InRange(s, i) then None
      else Some(UpdateRow(s.(statusList := s.statusList - {i}, times := s.times - {i}, reasons := s.reasons - {i}),
          s.key))
    case EnableAllKeys =>
      if !s.isMultiKey then SetSingleStatus(s, STATUS_ENABLED)
      else Some(UpdateRow(s.(statusList := map[], times := map[], reasons := map[]), s.key))
    case DisableAllKeys =>
      if !s.isMultiKey then SetSingleStatus(s, MANUALLY_DISABLED)
      else if DisabledAll(s.statusList, s.size) == s.statusList then None
      else Some(UpdateRow(s.(statusList := DisabledAll(s.statusList, s.size)), s.key))
    case DeleteKey(i) =>
      if !s.isMultiKey || !InRange(s, i) || AllBut(|KeysOf(s.key)|, i) == [] then None
      else Some(DeleteKeyRow(s, i))
    case DeleteDisabledKeys =>
      if !s.isMultiKey || |NotAutoDisabled(s.statusList, |KeysOf(s.key)|)| == |KeysOf(s.key)| then None
      else Some(DeleteDisabledRow(s))
    case AddKeys(text, newMode) =>
      var added := NonBlank(Split(TrimSpace(text), '\n'));
      if added == [] then None else Some(AddKeysRow(s, added, newMode))
    case UpdateKey(i, value) =>
      var newVal := TrimSpace(value);
      var keys := KeysOf(s.key);
      if newVal == "" then None
      else if !s.isMultiKey then (if i != 0 then None else Some(UpdateRow(s.(key := newVal), s.key)))
      else if 0 <= i < |keys| then Some(UpdateRow(s.(key := Join(keys[i := newVal], '\n')), s.key))
      else None
    case StatusUpdate(usingKey, newStatus, reason, time) =>
      if s.isMultiKey then Some(HandleStatus(s, usingKey, newStatus, reason, time)) else None
  }

  function Step(s: Info, a: Action): Info {
    match Apply(s, a)
    case Some(t) => t
    case None => s
  }

  function Run(s: Info, actions: seq<Action>): Info
    decreases |actions|
  {
    if actions == [] then s else Run(Step(s, actions[0]), actions[1..])
  }

  // ---------------------------------------------------------------------
  // Which actions succeed, and channels with a single key
  // ---------------------------------------------------------------------

  /** An action is refused, and changes nothing, exactly when it has nothing to
      act on. */
  lemma {:induction false} SuccessExact(s: Info, a: Action)
    ensures Apply(s, a).Some? <==>
            match a
            case DisableKey(i) =>
              if s.isMultiKey then 0 <= i < s.size else i == 0 && s.status != MANUALLY_DISABLED
            case EnableKey(i) =>
              if s.isMultiKey then 0 <= i < s.size else i == 0 && s.status != STATUS_ENABLED
            case EnableAllKeys => s.isMultiKey || s.status != STATUS_ENABLED
            case DisableAllKeys =>
              if s.isMultiKey then exists j: int :: 0 <= j < s.size && IsEnabled(s.statusList, j)
              else s.status != MANUALLY_DISABLED
            case DeleteKey(i) =>
              s.isMultiKey && 0 <= i < s.size && |KeysOf(s.key)| > (if i < |KeysOf(s.key)| then 1 else 0)
            case DeleteDisabledKeys =>
              s.isMultiKey && exists j: int :: 0 <= j < |KeysOf(s.key)| && StatusAt(s.statusList, j) == AUTO_DISABLED
            case AddKeys(text, _) => exists l :: l in Split(TrimSpace(text), '\n') && TrimSpace(l) != ""
            case UpdateKey(i, value) =>
              TrimSpace(value) != "" && if s.isMultiKey then 0 <= i < |KeysOf(s.key)| else i == 0
            case StatusUpdate(_, _, _, _) => s.isMultiKey
    ensures Apply(s, a).None? ==> Step(s, a) == s
  {
    hide KeysOf, UpdateRow, HandleStatus, DisabledAll, AllBut, NotAutoDisabled, NonBlank, Split, TrimSpace, Draft;
    match a {
      case DisableAllKeys => DisabledAllChanges(s.statusList, s.size);
      case DeleteKey(i) => AllButSound(|KeysOf(s.key)|, i);
      case DeleteDisabledKeys => SomeAutoDisabled(s.statusList, |KeysOf(s.key)|);
      case AddKeys(text, _) => SomeNotBlank(Split(TrimSpace(text), '\n'));
      case _ =>
    }
  }

  lemma {:induction false} SomeNotBlank(lines: seq<string>)
    ensures NonBlank(lines) != [] <==> exists l :: l in lines && TrimSpace(l) != ""
  {
    NonBlankElements(lines);
    hide TrimSpace, NonBlank;
    if NonBlank(lines) != [] {
      var m := NonBlank(lines)[0];
      assert m in NonBlank(lines);
    }
    if l :| l in lines && TrimSpace(l) != "" { assert TrimSpace(l) in NonBlank(lines); }
  }

  lemma {:induction false} SomeAutoDisabled(statusList: map<int, int>, n: nat)
    ensures |NotAutoDisabled(statusList, n)| < n <==>
            exists j: int :: 0 <= j < n && StatusAt(statusList, j) == AUTO_DISABLED
  {
    if n > 0 { SomeAutoDisabled(statusList, n - 1); }
  }

  lemma {:induction false} DisabledAllChanges(m: map<int, int>, n: nat)
    ensures DisabledAll(m, n) == m <==> forall j: int :: 0 <= j < n ==> !IsEnabled(m, j)
  {
    DisabledAllMeaning(m, n);
    if forall j: int :: 0 <= j < n ==> !IsEnabled(m, j) { NothingToDisable(m, n); }
    hide DisabledAll;
    if DisabledAll(m, n) == m {
      forall j: int | 0 <= j < n ensures !IsEnabled(m, j) {
        assert StatusAt(DisabledAll(m, n), j) == StatusAt(m, j);
      }
    }
  }

  lemma {:induction false} NothingToDisable(m: map<int, int>, n: nat)
    requires forall j: int :: 0 <= j < n ==> !IsEnabled(m, j)
    ensures DisabledAll(m, n) == m
  {
    if n > 0 {
      assert !IsEnabled(m, n - 1);
      NothingToDisable(m, n - 1);
    }
  }

  /** On a channel with a single key, disabling and enabling set the channel's own
      status, deleting and status updates of keys do nothing, and the key is
      replaced as a whole. */
  lemma {:induction false} SingleKeyExact(s: Info, a: Action)
    requires !s.isMultiKey && !a.AddKeys?
    ensures Step(s, a) ==
            match a
            case DisableKey(i) => if i == 0 then s.(status := MANUALLY_DISABLED) else s
            case DisableAllKeys => s.(status := MANUALLY_DISABLED)
            case EnableKey(i) => if i == 0 then s.(status := STATUS_ENABLED) else s
            case EnableAllKeys => s.(status := STATUS_ENABLED)
            case UpdateKey(i, value) =>
              if i == 0 && TrimSpace(value) != "" then s.(key := TrimSpace(value)) else s
            case _ => s
  {
    hide KeysOf, TrimSpace;
  }

  // ---------------------------------------------------------------------
  // The invariant of every run
  // ---------------------------------------------------------------------

  /** The status map records only non-enabled statuses at non-negative
      positions, and on a multi-key channel below the true number of keys. */
  ghost predicate Consistent(s: Info) {
    && (forall i :: i in s.statusList ==> i >= 0 && s.statusList[i] != STATUS_ENABLED)
    && (s.isMultiKey ==> s.size == |KeysOf(s.key)| && forall i :: i in s.statusList ==> i < s.size)
  }

  ghost predicate OnlyRecordsDisabled(m: map<int, int>) {
    forall i :: i in m ==> i >= 0 && m[i] != STATUS_ENABLED
  }

  lemma {:induction false} UpdateRowConsistent(s: Info, storedKey: string)
    requires OnlyRecordsDisabled(s.statusList)
    ensures Consistent(UpdateRow(s, storedKey))
  {
  }

  lemma {:induction false} DisabledAllRecords(m: map<int, int>, n: nat)
    requires OnlyRecordsDisabled(m)
    ensures OnlyRecordsDisabled(DisabledAll(m, n))
  {
    if n > 0 { DisabledAllRecords(m, n - 1); }
  }

  lemma {:induction false} HandleStatusConsistent(s: Info, usingKey: string, newStatus: int, reason: string, time: int)
    requires Consistent(s) && s.isMultiKey
    ensures Consistent(HandleStatus(s, usingKey, newStatus, reason, time))
  {
    hide KeysOf, FirstIndexOf, Marked, Tested;
    var keys := KeysOf(s.key);
    if keys != [] {
      MarkedConsistent(s, FirstIndexOf(keys, usingKey), newStatus, reason, time);
    }
  }

  lemma {:induction false} MarkedConsistent(s: Info, i: nat, newStatus: int, reason: string, time: int)
    requires Consistent(s) && s.isMultiKey && i < |KeysOf(s.key)|
    ensures Consistent(Tested(Marked(s, i, newStatus, reason, time)))
  {
    RecordConsistent(s, i, newStatus, reason, time);
    TestedKeeps(Marked(s, i, newStatus, reason, time));
    hide KeysOf, Marked, Tested;
  }

  lemma {:induction false} RecordConsistent(s: Info, i: nat, newStatus: int, reason: string, time: int)
    requires Consistent(s) && s.isMultiKey && i < |KeysOf(s.key)|
    ensures Consistent(Marked(s, i, newStatus, reason, time)) && Marked(s, i, newStatus, reason, time).isMultiKey
  {
    hide KeysOf;
  }

  lemma {:induction false} StepConsistent(s: Info, a: Action)
    requires Consistent(s)
    ensures Consistent(Step(s, a))
  {
    hide KeysOf, UpdateRow, HandleStatus, DisabledAll, AllBut, NotAutoDisabled, NonBlank, Draft;
    match a {
      case DisableKey(i) =>
        var position := if i < 0 then 0 else i;
        UpdateRowConsistent(s.(statusList := s.statusList[position := MANUALLY_DISABLED]), s.key);
      case EnableKey(i) =>
        UpdateRowConsistent(s.(statusList := s.statusList - {i}, times := s.times - {i}, reasons := s.reasons - {i}),
            s.key);
      case EnableAllKeys => UpdateRowConsistent(s.(statusList := map[], times := map[], reasons := map[]), s.key);
      case DisableAllKeys =>
        DisabledAllRecords(s.statusList, s.size);
        UpdateRowConsistent(s.(statusList := DisabledAll(s.statusList, s.size)), s.key);
      case DeleteKey(i) => DraftConsistent(s, AllBut(|KeysOf(s.key)|, i), s.times, s.reasons);
      case DeleteDisabledKeys =>
        DraftConsistent(s, NotAutoDisabled(s.statusList, |KeysOf(s.key)|), OnlyAt(s.times, s.statusList),
            OnlyAt(s.reasons, s.statusList));
      case AddKeys(text, newMode) =>
        var added := NonBlank(Split(TrimSpace(text), '\n'));
        if added != [] { AddKeysConsistent(s, added, newMode); }
      case UpdateKey(i, value) =>
        var newVal := TrimSpace(value);
        UpdateRowConsistent(s.(key := newVal), s.key);
        if 0 <= i < |KeysOf(s.key)| { UpdateRowConsistent(s.(key := Join(KeysOf(s.key)[i := newVal], '\n')), s.key); }
      case StatusUpdate(usingKey, newStatus, reason, time) =>
        if s.isMultiKey { HandleStatusConsistent(s, usingKey, newStatus, reason, time); }
    }
  }

  lemma {:induction false} DraftConsistent(
    s: Info, survivors: seq<nat>, times: map<int, int>, reasons: map<int, string>)
    requires forall j :: 0 <= j < |survivors| ==> survivors[j] < |KeysOf(s.key)|
    ensures Consistent(UpdateRow(Draft(s, survivors, times, reasons), s.key))
  {
    hide UpdateRow, KeysOf, Consistent, Select;
    UpdateRowConsistent(Draft(s, survivors, times, reasons), s.key);
  }

  lemma {:induction false} AddKeysConsistent(s: Info, added: seq<string>, newMode: Option<Mode>)
    requires Consistent(s) && added != []
    ensures Consistent(AddKeysRow(s, added, newMode))
  {
    hide UpdateRow, KeysOf;
    var all := (if s.key != "" then KeysOf(s.key) else []) + added;
    UpdateRowConsistent(s.(key := all[0], isMultiKey := false), s.key);
    var mode := match newMode case Some(m) => m case None => if s.mode.Unset? then Random else s.mode;
    UpdateRowConsistent(s.(key := Join(all, '\n'), isMultiKey := true, mode := mode, size := |all|), s.key);
  }

  /** A run takes its actions one after the other. */
  lemma {:induction false} RunSnoc(s: Info, actions: seq<Action>, a: Action)
    ensures Run(s, actions + [a]) == Step(Run(s, actions), a)
    decreases |actions|
  {
    hide Step;
    if actions == [] {
      assert (actions + [a])[1..] == [];
    } else {
      assert (actions + [a])[1..] == actions[1..] + [a];
      RunSnoc(Step(s, actions[0]), actions[1..], a);
    }
  }

  /** Whatever actions and status updates run, in any order, the records stay
      consistent. */
  lemma {:induction false} RunConsistent(s: Info, actions: seq<Action>)
    requires Consistent(s)
    ensures Consistent(Run(s, actions))
    decreases |actions|
  {
    hide Consistent, Step;
    if actions != [] {
      StepConsistent(s, actions[0]);
      RunConsistent(Step(s, actions[0]), actions[1..]);
    }
  }

  // ---------------------------------------------------------------------
  // The cardinality test
  // ---------------------------------------------------------------------

  ghost function Positions(n: nat): (r: set<int>)
    ensures forall i :: i in r <==> 0 <= i < n
    ensures |r| == n
  {
    if n == 0 then {} else Positions(n - 1) + {n - 1}
  }

  lemma {:induction false} SubsetFull(a: set<int>, b: set<int>)
    requires a <= b && |a| >= |b|
    ensures a == b
  {
    assert b == a + (b - a);
    assert |b| == |a| + |b - a|;
  }

  /** The test len(map) >= MultiKeySize asks whether every key is disabled,
      which is exactly when choosing a key fails with "no enabled keys". */
  lemma {:induction false} CardinalityTestExact(s: Info)
    requires Consistent(s) && s.isMultiKey
    ensures |s.statusList| >= s.size <==> forall i :: 0 <= i < s.size ==> !IsEnabled(s.statusList, i)
    ensures |s.statusList| >= s.size <==> EnabledUpTo(s.statusList, |KeysOf(s.key)|) == []
  {
    hide KeysOf;
    var all := Positions(s.size);
    var recorded := s.statusList.Keys;
    assert |recorded| == |s.statusList|;
    forall i | i in recorded ensures i in all { assert i in s.statusList; }
    if |s.statusList| >= s.size {
      SubsetFull(recorded, all);
      forall i | 0 <= i < s.size ensures !IsEnabled(s.statusList, i) { assert i in all; }
    }
    if forall i :: 0 <= i < s.size ==> !IsEnabled(s.statusList, i) {
      forall i | i in all ensures i in recorded { assert !IsEnabled(s.statusList, i); }
      assert recorded == all;
    }
    var es := EnabledUpTo(s.statusList, s.size);
    EnabledUpToSound(s.statusList, s.size);
    if es != [] {
      var first := es[0];
      assert first < s.size && IsEnabled(s.statusList, first);
    } else {
      forall i | 0 <= i < s.size ensures !IsEnabled(s.statusList, i) {
        if IsEnabled(s.statusList, i) { EnabledUpToComplete(s.statusList, s.size, i); }
      }
    }
  }

  /** A status update auto-disables the channel exactly when no key is left
      enabled, and otherwise leaves the channel's own status alone: enabling a key
      does not bring an auto-disabled channel back.  Without keys the report sets the channel's own
      status. */
  lemma {:induction false} AutoDisableExact(s: Info, usingKey: string, newStatus: int, reason: string, time: int)
    requires Consistent(s) && s.isMultiKey
    ensures var t := HandleStatus(s, usingKey, newStatus, reason, time);
            if KeysOf(s.key) == [] then t == s.(status := newStatus)
            else t.status == if EnabledUpTo(t.statusList, |KeysOf(t.key)|) == [] then AUTO_DISABLED else s.status
  {
    HandleStatusConsistent(s, usingKey, newStatus, reason, time);
    hide KeysOf;
    CardinalityTestExact(HandleStatus(s, usingKey, newStatus, reason, time));
  }

  /** A report about a key that is not in the list is charged to the first key,
      whatever it reports. */
  lemma {:induction false} UnlistedReportHitsFirst(s: Info, usingKey: string, newStatus: int, reason: string, time: int)
    requires s.isMultiKey && KeysOf(s.key) != [] && usingKey !in KeysOf(s.key)
    ensures StatusAt(HandleStatus(s, usingKey, newStatus, reason, time).statusList, 0) == newStatus
  {
    hide KeysOf;
    MarkedMeaning(s, 0, newStatus, reason, time);
    hide Marked, StatusAt;
    TestedKeeps(Marked(s, 0, newStatus, reason, time));
  }

  /** A report changes no key but the one it names exactly when the key is listed
      or the first key already has the reported status. */
  lemma {:induction false} ReportExact(s: Info, usingKey: string, newStatus: int, reason: string, time: int)
    requires s.isMultiKey && KeysOf(s.key) != []
    ensures var t := HandleStatus(s, usingKey, newStatus, reason, time);
            var keys := KeysOf(s.key);
            (forall j: nat :: j < |keys| && keys[j] != usingKey ==>
               StatusAt(t.statusList, j) == StatusAt(s.statusList, j))
            <==> usingKey in keys || newStatus == StatusAt(s.statusList, 0)
  {
    StatusUpdateMeaning(s, usingKey, newStatus, reason, time);
    hide HandleStatus, StatusAt, KeysOf;
    var keys := KeysOf(s.key);
    if usingKey !in keys {
      var first := keys[0];
      assert first in keys;
    }
  }

  /** The key's text is nowhere enabled. */
  ghost predicate NowhereEnabled(keys: seq<string>, statusList: map<int, int>, usingKey: string) {
    forall j :: 0 <= j < |keys| && keys[j] == usingKey ==> !IsEnabled(statusList, j)
  }

  /** A disabling report stops a listed key from being handed out exactly when no
      copy of it but the first was enabled before. */
  lemma {:induction false} DisablingReportExact(
    s: Info, usingKey: string, newStatus: int, reason: string, time: int)
    requires usingKey in KeysOf(s.key) && newStatus != STATUS_ENABLED
    ensures var t := HandleStatus(s, usingKey, newStatus, reason, time);
            var keys := KeysOf(s.key);
            NowhereEnabled(keys, t.statusList, usingKey) <==>
            forall j :: FirstIndexOf(keys, usingKey) < j < |keys| && keys[j] == usingKey ==>
              !IsEnabled(s.statusList, j)
  {
    var keys := KeysOf(s.key);
    assert keys != [];
    StatusUpdateMeaning(s, usingKey, newStatus, reason, time);
    var i := FirstIndexOf(keys, usingKey);
    assert forall j :: 0 <= j < i ==> keys[..i][j] == keys[j];
    hide KeysOf, HandleStatus, StatusAt, FirstIndexOf;
  }

  /** A key listed twice is still handed out after its report: the second copy
      stays enabled. */
  lemma {:induction false} SecondCopyStaysEnabled(s: Info, reason: string, time: int)
    requires KeysOf(s.key) == ["a", "a"] && s.statusList == map[]
    ensures IsEnabled(HandleStatus(s, "a", AUTO_DISABLED, reason, time).statusList, 1)
    ensures !NowhereEnabled(["a", "a"], HandleStatus(s, "a", AUTO_DISABLED, reason, time).statusList, "a")
  {
    var keys := KeysOf(s.key);
    var first := keys[0];
    assert first in keys;
    StatusUpdateMeaning(s, "a", AUTO_DISABLED, reason, time);
    hide KeysOf, HandleStatus;
    assert FirstIndexOf(keys, "a") == 0;
    assert keys[1] == "a";
  }

  /** A status update changes one key's status, and its time and reason when it
      is not enabled: the first key of that text, or the first of all; every other
      key keeps all three. */
  lemma {:induction false} StatusUpdateMeaning(s: Info, usingKey: string, newStatus: int, reason: string, time: int)
    requires KeysOf(s.key) != []
    ensures var t := HandleStatus(s, usingKey, newStatus, reason, time);
            var i := FirstIndexOf(KeysOf(s.key), usingKey);
            && t.(status := s.status, statusList := s.statusList, times := s.times, reasons := s.reasons) == s
            && (forall j :: StatusAt(t.statusList, j) == if j == i then newStatus else StatusAt(s.statusList, j))
            && (newStatus == STATUS_ENABLED ==> t.times == s.times && t.reasons == s.reasons)
            && (newStatus != STATUS_ENABLED ==> t.times == s.times[i := time] && t.reasons == s.reasons[i := reason])
  {
    var keys := KeysOf(s.key);
    hide KeysOf, FirstIndexOf, Marked, Tested, StatusAt;
    MarkedMeaning(s, FirstIndexOf(keys, usingKey), newStatus, reason, time);
    TestedKeeps(Marked(s, FirstIndexOf(keys, usingKey), newStatus, reason, time));
  }

  lemma {:induction false} TestedKeeps(s: Info)
    ensures Tested(s).(status := s.status) == s
  {
  }

  lemma {:induction false} MarkedMeaning(s: Info, i: nat, newStatus: int, reason: string, time: int)
    ensures var t := Marked(s, i, newStatus, reason, time);
            && t.(statusList := s.statusList, times := s.times, reasons := s.reasons) == s
            && (forall j :: StatusAt(t.statusList, j) == if j == i then newStatus else StatusAt(s.statusList, j))
            && (newStatus == STATUS_ENABLED ==> t.times == s.times && t.reasons == s.reasons)
            && (newStatus != STATUS_ENABLED ==> t.times == s.times[i := time] && t.reasons == s.reasons[i := reason])
  {
  }

  // ---------------------------------------------------------------------
  // Deleting keys
  // ---------------------------------------------------------------------

  /** Neither the channel's own status nor how its keys are chosen changed. */
  ghost predicate SameSettings(t: Info, s: Info) {
    t.status == s.status && t.isMultiKey == s.isMultiKey && t.mode == s.mode && t.pollingIndex == s.pollingIndex
  }

  ghost predicate ReindexedStatus(t: Info, s: Info, survivors: seq<nat>) {
    && t.size == |survivors|
    && (forall j :: 0 <= j < |survivors| ==> StatusAt(t.statusList, j) == StatusAt(s.statusList, survivors[j]))
    && (forall j :: j in t.statusList ==> 0 <= j < |survivors|)
  }

  lemma {:induction false} AllButSound(n: nat, gone: int)
    ensures forall p :: p in AllBut(n, gone) <==> 0 <= p < n && p != gone
    ensures Increasing(AllBut(n, gone))
    ensures 0 <= gone < n ==> |AllBut(n, gone)| == n - 1
    ensures !(0 <= gone < n) ==> |AllBut(n, gone)| == n
  {
    if n > 0 { AllButSound(n - 1, gone); }
  }

  lemma {:induction false} NotAutoDisabledIncreasing(statusList: map<int, int>, n: nat)
    ensures Increasing(NotAutoDisabled(statusList, n))
  {
    if n > 0 {
      NotAutoDisabledIncreasing(statusList, n - 1);
      var r := NotAutoDisabled(statusList, n - 1);
      assert forall j :: 0 <= j < |r| ==> r[j] < n - 1;
    }
  }

  lemma {:induction false} NotAutoDisabledComplete(statusList: map<int, int>, n: nat, p: nat)
    requires p < n && StatusAt(statusList, p) != AUTO_DISABLED
    ensures p in NotAutoDisabled(statusList, n)
  {
    if p < n - 1 { NotAutoDisabledComplete(statusList, n - 1, p); }
  }

  lemma {:induction false} NoneSurvive(statusList: map<int, int>, n: nat)
    requires forall i :: 0 <= i < n ==> StatusAt(statusList, i) == AUTO_DISABLED
    ensures NotAutoDisabled(statusList, n) == []
  {
    if n > 0 { NoneSurvive(statusList, n - 1); }
  }

  lemma {:induction false} SelectSepFree(keys: seq<string>, survivors: seq<nat>, sep: char)
    requires SepFree(keys, sep) && forall j :: 0 <= j < |survivors| ==> survivors[j] < |keys|
    ensures SepFree(Select(keys, survivors), sep)
  {
    var r := Select(keys, survivors);
    forall p | p in r ensures sep !in p {
      var j :| 0 <= j < |r| && r[j] == p;
      assert keys[survivors[j]] in keys;
    }
  }

  /** Reading back the joined survivors gives the survivors exactly when the
      first and the last of them are not blank. */
  lemma {:induction false} SurvivorsReadBack(s: Info, survivors: seq<nat>)
    requires survivors != [] && forall j :: 0 <= j < |survivors| ==> survivors[j] < |KeysOf(s.key)|
    ensures var kept := Select(KeysOf(s.key), survivors);
            KeysOf(Join(kept, '\n')) == kept <==> kept[0] != "" && kept[|kept| - 1] != ""
  {
    var kept := Select(KeysOf(s.key), survivors);
    SelectSepFree(KeysOf(s.key), survivors, '\n');
    FieldsJoin(kept, '\n');
  }

  lemma {:induction false} JoinNonEmpty(parts: seq<string>, sep: char)
    requires parts != [] && parts[0] != ""
    ensures Join(parts, sep) != ""
  {
  }

  /** Re-indexing records and trimming to the new size keeps every survivor's
      effective status and leaves nothing past the end. */
  lemma {:induction false} ReindexKeepsStatus(m: map<int, int>, survivors: seq<nat>)
    ensures var r := Trimmed(OnlyDisabled(Reindex(m, survivors)), |survivors|);
            && (forall j :: 0 <= j < |survivors| ==> StatusAt(r, j) == StatusAt(m, survivors[j]))
            && (forall j :: j in r ==> 0 <= j < |survivors|)
  {
  }

  ghost predicate EndsNotBlank(keys: seq<string>) {
    keys != [] && keys[0] != "" && keys[|keys| - 1] != ""
  }

  /** What is written after a deletion: the survivors' keys, and their records
      at their new positions. */
  lemma {:induction false} DraftWritten(s: Info, survivors: seq<nat>, times: map<int, int>, reasons: map<int, string>)
    requires s.isMultiKey && forall j :: 0 <= j < |survivors| ==> survivors[j] < |KeysOf(s.key)|
    requires EndsNotBlank(Select(KeysOf(s.key), survivors))
    ensures var t := UpdateRow(Draft(s, survivors, times, reasons), s.key);
            && KeysOf(t.key) == Select(KeysOf(s.key), survivors)
            && ReindexedStatus(t, s, survivors)
            && t.times == Reindex(times, survivors)
            && t.reasons == Reindex(reasons, survivors)
  {
    SurvivorsReadBack(s, survivors);
    JoinNonEmpty(Select(KeysOf(s.key), survivors), '\n');
    ReindexKeepsStatus(s.statusList, survivors);
    hide KeysOf, Join, Select, Trimmed, OnlyDisabled, Reindex, StatusAt;
  }

  lemma {:induction false} DeleteKeySucceeds(s: Info, i: int)
    requires s.isMultiKey && InRange(s, i) && AllBut(|KeysOf(s.key)|, i) != []
    ensures Step(s, DeleteKey(i)) == DeleteKeyRow(s, i)
  {
    hide KeysOf, AllBut, DeleteKeyRow;
  }

  lemma {:induction false} DeleteDisabledSucceeds(s: Info)
    requires s.isMultiKey && |NotAutoDisabled(s.statusList, |KeysOf(s.key)|)| != |KeysOf(s.key)|
    ensures Step(s, DeleteDisabledKeys) == DeleteDisabledRow(s)
  {
    hide KeysOf, NotAutoDisabled, DeleteDisabledRow;
  }

  /** A deletion that leaves some key out: the survivors' keys are stored exactly
      when the first and the last of them are not blank. */
  lemma {:induction false} DraftExact(s: Info, survivors: seq<nat>, times: map<int, int>, reasons: map<int, string>)
    requires s.isMultiKey && |survivors| < |KeysOf(s.key)|
    requires forall j :: 0 <= j < |survivors| ==> survivors[j] < |KeysOf(s.key)|
    ensures var t := UpdateRow(Draft(s, survivors, times, reasons), s.key);
            var kept := Select(KeysOf(s.key), survivors);
            && (KeysOf(t.key) == kept <==> EndsNotBlank(kept))
            && (EndsNotBlank(kept) ==> ReindexedStatus(t, s, survivors))
            && t.times == Reindex(times, survivors)
            && t.reasons == Reindex(reasons, survivors)
            && SameSettings(t, s)
  {
    var kept := Select(KeysOf(s.key), survivors);
    var t := UpdateRow(Draft(s, survivors, times, reasons), s.key);
    if EndsNotBlank(kept) {
      DraftWritten(s, survivors, times, reasons);
      hide *;
    } else {
      DraftKey(s, survivors, times, reasons);
      hide KeysOf, Join, Select, UpdateRow, Draft;
      if kept != [] {
        assert survivors != [];
        SurvivorsReadBack(s, survivors);
      }
    }
    DraftColumns(s, survivors, times, reasons);
  }

  lemma {:induction false} DraftKey(s: Info, survivors: seq<nat>, times: map<int, int>, reasons: map<int, string>)
    requires forall j :: 0 <= j < |survivors| ==> survivors[j] < |KeysOf(s.key)|
    ensures var text := Join(Select(KeysOf(s.key), survivors), '\n');
            UpdateRow(Draft(s, survivors, times, reasons), s.key).key == if text != "" then text else s.key
    ensures Join(Select(KeysOf(s.key), []), '\n') == ""
  {
    hide KeysOf;
  }

  lemma {:induction false} DraftColumns(s: Info, survivors: seq<nat>, times: map<int, int>, reasons: map<int, string>)
    requires forall j :: 0 <= j < |survivors| ==> survivors[j] < |KeysOf(s.key)|
    ensures var t := UpdateRow(Draft(s, survivors, times, reasons), s.key);
            && t.times == Reindex(times, survivors) && t.reasons == Reindex(reasons, survivors)
            && SameSettings(t, s)
  {
    hide KeysOf, Join, Select, Reindex, OnlyDisabled, Trimmed;
  }

  /** Deleting one key: the other keys are what is stored, in order, exactly when
      the first and the last of them are not blank; then each survivor's effective
      status, disabled time and reason have moved with it to its new position, and
      no record lies past the new end. */
  lemma {:induction false} DeleteKeyKeepsSurvivors(s: Info, i: int)
    requires Consistent(s) && s.isMultiKey && InRange(s, i) && s.size > 1
    ensures var survivors := AllBut(s.size, i);
            var kept := Select(KeysOf(s.key), survivors);
            var t := Step(s, DeleteKey(i));
            && Increasing(survivors) && (forall p :: p in survivors <==> 0 <= p < s.size && p != i)
            && (KeysOf(t.key) == kept <==> EndsNotBlank(kept))
            && (EndsNotBlank(kept) ==> ReindexedStatus(t, s, survivors))
            && t.times == Reindex(s.times, survivors)
            && t.reasons == Reindex(s.reasons, survivors)
            && SameSettings(t, s)
  {
    assert s.size == |KeysOf(s.key)|;
    hide KeysOf, AllBut, Draft, Select, UpdateRow, Reindex, Step, EndsNotBlank, ReindexedStatus, Consistent,
        SameSettings;
    AllButSound(s.size, i);
    DraftExact(s, AllBut(s.size, i), s.times, s.reasons);
    DeleteKeySucceeds(s, i);
  }

  /** Deleting the auto-disabled keys: the same, except that times and reasons
      move only for the keys that stay disabled. */
  lemma {:induction false} DeleteDisabledKeepsSurvivors(s: Info)
    requires Consistent(s) && s.isMultiKey && |NotAutoDisabled(s.statusList, s.size)| < s.size
    ensures var survivors := NotAutoDisabled(s.statusList, s.size);
            var kept := Select(KeysOf(s.key), survivors);
            var t := Step(s, DeleteDisabledKeys);
            && Increasing(survivors)
            && (forall p: nat :: p < s.size && StatusAt(s.statusList, p) != AUTO_DISABLED ==> p in survivors)
            && (KeysOf(t.key) == kept <==> EndsNotBlank(kept))
            && (EndsNotBlank(kept) ==> ReindexedStatus(t, s, survivors))
            && t.times == Reindex(OnlyAt(s.times, s.statusList), survivors)
            && t.reasons == Reindex(OnlyAt(s.reasons, s.statusList), survivors)
            && SameSettings(t, s)
  {
    assert s.size == |KeysOf(s.key)|;
    hide KeysOf, NotAutoDisabled, Draft, Select, UpdateRow, Reindex, OnlyAt, Step, EndsNotBlank, ReindexedStatus,
        SameSettings;
    var survivors := NotAutoDisabled(s.statusList, s.size);
    NotAutoDisabledIncreasing(s.statusList, s.size);
    forall p: nat | p < s.size && StatusAt(s.statusList, p) != AUTO_DISABLED ensures p in survivors {
      NotAutoDisabledComplete(s.statusList, s.size, p);
    }
    DraftExact(s, survivors, OnlyAt(s.times, s.statusList), OnlyAt(s.reasons, s.statusList));
    DeleteDisabledSucceeds(s);
  }

  /** What the re-indexing in the two theorems means entry by entry: a survivor
      that stays disabled keeps its time or reason at its new position, and no
      entry lies past the new end. */
  lemma {:induction false} ReindexMeaning<V>(m: map<int, V>, statusList: map<int, int>, survivors: seq<nat>, j: nat)
    requires j < |survivors| && StatusAt(statusList, survivors[j]) != STATUS_ENABLED && survivors[j] in m
    ensures j in Reindex(OnlyAt(m, statusList), survivors)
        && Reindex(OnlyAt(m, statusList), survivors)[j] == m[survivors[j]]
    ensures j in Reindex(m, survivors) && Reindex(m, survivors)[j] == m[survivors[j]]
    ensures forall k :: k in Reindex(OnlyAt(m, statusList), survivors) || k in Reindex(m, survivors) ==>
              0 <= k < |survivors|
  {
  }

  lemma {:induction false} TwoSurvivors(keys: seq<string>)
    requires keys == ["a", "", "b"]
    ensures AllBut(3, 0) == [1, 2] && Select(keys, [1, 2]) == ["", "b"] && Join(["", "b"], '\n') == "\nb"
  {
    assert AllBut(0, 0) == [];
    assert AllBut(1, 0) == [];
    assert AllBut(2, 0) == [1];
    assert [1, 2][1..] == [2] && [2][1..] == [];
    assert Select(keys, [2]) == ["b"];
    assert ["", "b"][1..] == ["b"];
    assert Join(["b"], '\n') == "b";
  }

  lemma {:induction false} LeadingNewline()
    ensures KeysOf("\nb") == ["b"]
  {
    assert "\nb"[1..] == "b";
    assert TrimLeft("b", '\n') == "b";
    assert TrimRight("b", '\n') == "b";
    SplitSingle("b", '\n');
  }

  /** Blank keys break the re-indexing: the stored text is trimmed, so the
      positions shift under the records.  Of "a", "", "b" with "b" disabled,
      deleting "a" leaves the single key "b", enabled. */
  lemma {:induction false} BlankKeyLosesStatus(s: Info)
    requires Consistent(s) && s.isMultiKey && KeysOf(s.key) == ["a", "", "b"] && s.statusList == map[2 := AUTO_DISABLED]
    ensures KeysOf(Step(s, DeleteKey(0)).key) == ["b"]
    ensures StatusAt(Step(s, DeleteKey(0)).statusList, 0) == STATUS_ENABLED
  {
    var keys := KeysOf(s.key);
    assert |keys| == 3;
    TwoSurvivors(keys);
    ShiftedRow(s);
    hide *;
    assert DeleteKeyRow(s, 0) == UpdateRow(Draft(s, [1, 2], s.times, s.reasons), s.key) by { RowWithTwo(s); }
    assert InRange(s, 0) by { SizeThree(s); }
    DeleteKeySucceeds(s, 0);
  }

  lemma {:induction false} SizeThree(s: Info)
    requires Consistent(s) && s.isMultiKey && |KeysOf(s.key)| == 3
    ensures InRange(s, 0)
  {
    hide KeysOf;
  }

  lemma {:induction false} RowWithTwo(s: Info)
    requires |KeysOf(s.key)| == 3 && AllBut(3, 0) == [1, 2]
    ensures DeleteKeyRow(s, 0) == UpdateRow(Draft(s, [1, 2], s.times, s.reasons), s.key)
  {
    hide KeysOf, AllBut, UpdateRow, Draft;
  }

  lemma {:induction false} ShiftedRow(s: Info)
    requires s.isMultiKey && KeysOf(s.key) == ["a", "", "b"] && s.statusList == map[2 := AUTO_DISABLED]
    ensures var t := UpdateRow(Draft(s, [1, 2], s.times, s.reasons), s.key);
            KeysOf(t.key) == ["b"] && StatusAt(t.statusList, 0) == STATUS_ENABLED
  {
    TwoSurvivors(KeysOf(s.key));
    LeadingNewline();
    hide KeysOf, Join, Select;
    var survivors: seq<nat> := [1, 2];
    assert survivors[0] == 1;
    assert 0 !in Reindex(s.statusList, survivors);
    assert Draft(s, survivors, s.times, s.reasons).key == "\nb";
  }

  /** Without a survivor nothing is deleted: the empty key is not written, and
      every key comes back enabled with its records gone. */
  lemma {:induction false} DeletingEveryKeyRevivesAll(s: Info)
    requires Consistent(s) && s.isMultiKey && s.size > 0
    requires forall i :: 0 <= i < s.size ==> StatusAt(s.statusList, i) == AUTO_DISABLED
    ensures var t := Step(s, DeleteDisabledKeys);
            && t.key == s.key && t.size == s.size
            && t.statusList == map[] && t.times == map[] && t.reasons == map[]
            && forall i :: 0 <= i < s.size ==> IsEnabled(t.statusList, i)
  {
    NoneSurvive(s.statusList, s.size);
    DeleteDisabledSucceeds(s);
    hide KeysOf, NotAutoDisabled, Step;
  }

  // ---------------------------------------------------------------------
  // What each remaining action does to the keys and their statuses
  // ---------------------------------------------------------------------

  /** Writing a consistent multi-key channel back changes nothing. */
  lemma {:induction false} UpdateRowSettles(s: Info, storedKey: string)
    requires Consistent(s) && s.isMultiKey && (s.key != "" || storedKey == "")
    ensures UpdateRow(s, storedKey) == s
  {
    hide KeysOf;
    var t := Trimmed(s.statusList, s.size);
    assert forall i :: i in s.statusList ==> i in t && t[i] == s.statusList[i];
    assert t.Keys == s.statusList.Keys;
    assert t == s.statusList;
  }

  /** Disabling or enabling one key changes that key's status and no other;
      disabling keeps every other column, enabling drops the key's time and
      reason. */
  lemma {:induction false} OneKeyChanged(s: Info, i: int)
    requires Consistent(s) && s.isMultiKey && InRange(s, i)
    ensures var t := Step(s, DisableKey(i));
            && t.(statusList := s.statusList) == s
            && forall j :: StatusAt(t.statusList, j) == if j == i then MANUALLY_DISABLED else StatusAt(s.statusList, j)
    ensures var t := Step(s, EnableKey(i));
            && t.(statusList := s.statusList, times := s.times, reasons := s.reasons) == s
            && t.times == s.times - {i} && t.reasons == s.reasons - {i}
            && forall j :: StatusAt(t.statusList, j) == if j == i then STATUS_ENABLED else StatusAt(s.statusList, j)
  {
    hide KeysOf, UpdateRow;
    var disabled := s.(statusList := s.statusList[i := MANUALLY_DISABLED]);
    UpdateRowSettles(disabled, s.key);
    var enabled := s.(statusList := s.statusList - {i}, times := s.times - {i}, reasons := s.reasons - {i});
    UpdateRowSettles(enabled, s.key);
  }

  lemma {:induction false} DisabledAllMeaning(m: map<int, int>, n: nat)
    ensures forall j :: StatusAt(DisabledAll(m, n), j) ==
                        if 0 <= j < n && StatusAt(m, j) == STATUS_ENABLED then MANUALLY_DISABLED else StatusAt(m, j)
    ensures forall j :: j in DisabledAll(m, n) ==> j in m || 0 <= j < n
  {
    if n > 0 { DisabledAllMeaning(m, n - 1); }
  }

  /** Enabling all enables every key and forgets every time and reason;
      disabling all disables the enabled keys and leaves the others as they
      were. */
  lemma {:induction false} AllKeysChanged(s: Info)
    requires Consistent(s) && s.isMultiKey
    ensures var t := Step(s, EnableAllKeys);
            t == s.(statusList := map[], times := map[], reasons := map[])
    ensures var t := Step(s, DisableAllKeys);
            && t.(statusList := s.statusList) == s
            && forall j :: StatusAt(t.statusList, j) ==
                 if 0 <= j < s.size && IsEnabled(s.statusList, j) then MANUALLY_DISABLED else StatusAt(s.statusList, j)
  {
    DisabledAllMeaning(s.statusList, s.size);
    DisabledAllRecords(s.statusList, s.size);
    hide KeysOf, UpdateRow, DisabledAll;
    UpdateRowSettles(s.(statusList := map[], times := map[], reasons := map[]), s.key);
    UpdateRowSettles(s.(statusList := DisabledAll(s.statusList, s.size)), s.key);
  }

  lemma {:induction false} NonBlankLines(lines: seq<string>)
    requires SepFree(lines, '\n')
    ensures SepFree(NonBlank(lines), '\n') && forall p :: p in NonBlank(lines) ==> p != ""
  {
    if lines != [] {
      var last := lines[|lines| - 1];
      assert last in lines;
      assert SepFree(lines[..|lines| - 1], '\n');
      NonBlankLines(lines[..|lines| - 1]);
    }
  }

  /** Joined and read back, a list comes back exactly when neither end is blank. */
  lemma {:induction false} JoinedKeysExact(all: seq<string>)
    requires all != [] && SepFree(all, '\n')
    ensures KeysOf(Join(all, '\n')) == all <==> EndsNotBlank(all)
  {
    hide Split, Trim, Join;
    FieldsJoin(all, '\n');
  }

  /** Added keys go to the end of any channel's list.  All of them are stored, in
      order, exactly when the first is not blank, which makes a channel with more
      than one key a multi-key one; then every old key keeps its status, and
      nobody's time or reason is touched. */
  lemma {:induction false} AddKeysExact(s: Info, text: string, newMode: Option<Mode>)
    requires Consistent(s) && NonBlank(Split(TrimSpace(text), '\n')) != []
    ensures var before := KeysOf(s.key);
            var all := before + NonBlank(Split(TrimSpace(text), '\n'));
            var t := Step(s, AddKeys(text, newMode));
            && (KeysOf(t.key) == all <==> all[0] != "")
            && (t.isMultiKey <==> |all| > 1)
            && t.times == s.times && t.reasons == s.reasons
            && t.status == s.status && t.pollingIndex == s.pollingIndex
            && t.mode == (if |all| == 1 then s.mode else if newMode.Some? then newMode.value
                          else if s.mode == Unset then Random else s.mode)
            && (|all| == 1 ==> t.size == s.size && t.statusList == s.statusList)
            && (all[0] != "" && t.isMultiKey ==>
                  && t.size == |all|
                  && (forall j :: 0 <= j < |before| ==> StatusAt(t.statusList, j) == StatusAt(s.statusList, j))
                  && (s.isMultiKey ==> forall j :: |before| <= j < |all| ==> IsEnabled(t.statusList, j)))
  {
    var added := NonBlank(Split(TrimSpace(text), '\n'));
    NonBlankLines(Split(TrimSpace(text), '\n'));
    assert added[|added| - 1] in added;
    hide *;
    AddKeysRowExact(s, added, newMode);
    AddKeysSucceeds(s, text, newMode);
  }

  lemma {:induction false} AddKeysSucceeds(s: Info, text: string, newMode: Option<Mode>)
    requires NonBlank(Split(TrimSpace(text), '\n')) != []
    ensures Step(s, AddKeys(text, newMode)) == AddKeysRow(s, NonBlank(Split(TrimSpace(text), '\n')), newMode)
  {
    hide NonBlank, Split, TrimSpace, AddKeysRow;
  }

  lemma {:induction false} NoTextNoKeys()
    ensures KeysOf("") == []
  {
  }

  lemma {:induction false} AddKeysRowExact(s: Info, added: seq<string>, newMode: Option<Mode>)
    requires Consistent(s) && added != [] && SepFree(added, '\n') && added[|added| - 1] != ""
    ensures var before := KeysOf(s.key);
            var all := before + added;
            var t := AddKeysRow(s, added, newMode);
            && (KeysOf(t.key) == all <==> all[0] != "")
            && (t.isMultiKey <==> |all| > 1)
            && t.times == s.times && t.reasons == s.reasons
            && t.status == s.status && t.pollingIndex == s.pollingIndex
            && t.mode == (if |all| == 1 then s.mode else if newMode.Some? then newMode.value
                          else if s.mode == Unset then Random else s.mode)
            && (|all| == 1 ==> t.size == s.size && t.statusList == s.statusList)
            && (all[0] != "" && t.isMultiKey ==>
                  && t.size == |all|
                  && (forall j :: 0 <= j < |before| ==> StatusAt(t.statusList, j) == StatusAt(s.statusList, j))
                  && (s.isMultiKey ==> forall j :: |before| <= j < |all| ==> IsEnabled(t.statusList, j)))
  {
    NoTextNoKeys();
    var before := KeysOf(s.key);
    var all := before + added;
    forall p | p in all ensures '\n' !in p { assert p in before || p in added; }
    assert all[|all| - 1] == added[|added| - 1];
    JoinedKeysExact(all);
    JoinHolds(all, |all| - 1);
    JoinSingle(all);
    hide KeysOf, Join;
    assert all == (if s.key != "" then KeysOf(s.key) else []) + added;
    if |all| > 1 {
      var mode := match newMode case Some(m) => m case None => if s.mode.Unset? then Random else s.mode;
      var draft := s.(key := Join(all, '\n'), isMultiKey := true, mode := mode, size := |all|);
      assert AddKeysRow(s, added, newMode) == UpdateRow(draft, s.key);
    }
  }

  lemma {:induction false} JoinSingle(all: seq<string>)
    requires |all| > 0
    ensures |all| == 1 ==> Join(all, '\n') == all[0]
  {
  }

  lemma {:induction false} JoinHolds(parts: seq<string>, i: nat)
    requires i < |parts|
    ensures |Join(parts, '\n')| >= |parts[i]|
  {
    if i > 0 { JoinHolds(parts[1..], i - 1); }
  }

  /** Replacing a key's text replaces exactly that key, every status staying
      where it is, if and only if the new text is a single line and neither end
      of the list is blank. */
  lemma {:induction false} UpdateKeyExact(s: Info, i: int, value: string)
    requires Consistent(s) && s.isMultiKey && InRange(s, i) && TrimSpace(value) != ""
    ensures var t := Step(s, UpdateKey(i, value));
            var keys := KeysOf(s.key)[i := TrimSpace(value)];
            && (KeysOf(t.key) == keys <==> '\n' !in TrimSpace(value) && EndsNotBlank(keys))
            && t.key == Join(keys, '\n')
            && (KeysOf(t.key) == keys ==> t.(key := s.key) == s)
  {
    var v := TrimSpace(value);
    var keys := KeysOf(s.key)[i := v];
    ReplacedReadsBack(KeysOf(s.key), i, v);
    JoinHolds(keys, i);
    hide TrimSpace, KeysOf, UpdateRow, Join;
    KeysRewritten(s, keys);
  }

  lemma {:induction false} ReplacedReadsBack(before: seq<string>, i: nat, v: string)
    requires SepFree(before, '\n') && i < |before| && v != ""
    ensures var keys := before[i := v];
            KeysOf(Join(keys, '\n')) == keys <==> '\n' !in v && EndsNotBlank(keys)
  {
    var keys := before[i := v];
    assert keys[i] == v;
    var back := KeysOf(Join(keys, '\n'));
    if '\n' !in v {
      assert forall p :: p in keys ==> p == v || p in before;
      FieldsJoin(keys, '\n');
    }
    assert back == keys ==> keys[i] in back;
    hide Split, Trim, Join;
  }

  lemma {:induction false} KeysRewritten(s: Info, keys: seq<string>)
    requires Consistent(s) && s.isMultiKey && |keys| == s.size && Join(keys, '\n') != ""
    ensures var t := UpdateRow(s.(key := Join(keys, '\n')), s.key);
            && t.key == Join(keys, '\n')
            && (KeysOf(t.key) == keys ==> t.(key := s.key) == s)
  {
    hide KeysOf, Join, Trimmed;
    if KeysOf(Join(keys, '\n')) == keys {
      UpdateRowSettles(s.(key := Join(keys, '\n')), s.key);
    }
  }
}
