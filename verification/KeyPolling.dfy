/** Choosing the next enabled key of a multi-key channel, and why polling is
    fair. */
module KeyPolling {
  import opened ChannelStatus

  /** The status of a key position: enabled when nothing is recorded. */
  function StatusAt(statusList: map<int, int>, i: int): int {
    if i in statusList then statusList[i] else STATUS_ENABLED
  }

  predicate IsEnabled(statusList: map<int, int>, i: int) { StatusAt(statusList, i) == STATUS_ENABLED }

  /** The enabled positions below `n`, in order. */
  function EnabledUpTo(statusList: map<int, int>, n: nat): (es: seq<nat>)
    ensures |es| <= n
  {
    if n == 0 then []
    else EnabledUpTo(statusList, n - 1) + if IsEnabled(statusList, n - 1) then [n - 1] else []
  }

  ghost predicate AllEnabledBelow(es: seq<nat>, statusList: map<int, int>, n: nat) {
    forall i :: 0 <= i < |es| ==> es[i] < n && IsEnabled(statusList, es[i])
  }

  ghost predicate Increasing(es: seq<nat>) {
    forall i, j :: 0 <= i < j < |es| ==> es[i] < es[j]
  }

  lemma {:induction false} EnabledUpToSound(statusList: map<int, int>, n: nat)
    ensures AllEnabledBelow(EnabledUpTo(statusList, n), statusList, n)
    ensures Increasing(EnabledUpTo(statusList, n))
  {
    if n > 0 {
      EnabledUpToSound(statusList, n - 1);
      var es := EnabledUpTo(statusList, n - 1);
      assert forall i :: 0 <= i < |es| ==> es[i] < n - 1;
    }
  }

  lemma {:induction false} EnabledUpToComplete(statusList: map<int, int>, n: nat, p: nat)
    requires p < n && IsEnabled(statusList, p)
    ensures p in EnabledUpTo(statusList, n)
  {
    if p < n - 1 { EnabledUpToComplete(statusList, n - 1, p); }
  }

  lemma {:induction false} EnabledPrefix(statusList: map<int, int>, p: nat, n: nat)
    requires p <= n
    ensures EnabledUpTo(statusList, p) <= EnabledUpTo(statusList, n)
    decreases n - p
  {
    if p < n { EnabledPrefix(statusList, p, n - 1); }
  }

  /** Where a poll starts: the saved position, or 0 when that is out of range. */
  function StartOf(index: int, n: nat): nat {
    if index < 0 || index >= n then 0 else index
  }

  /** Counting past the last rank starts over. */
  function Wrap(a: nat, k: nat): (r: nat)
    requires k > 0
    ensures r < k
    decreases a
  {
    if a < k then a else Wrap(a - k, k)
  }

  /** How far ahead of the start a position comes, going round. */
  function Ahead(start: nat, j: nat, n: nat): int { if j >= start then j - start else j + n - start }

  /** The position is the first enabled one from the start on, going round. */
  ghost predicate FirstFrom(statusList: map<int, int>, n: nat, start: nat, idx: nat) {
    && idx < n && IsEnabled(statusList, idx)
    && forall j: nat :: j < n && Ahead(start, j, n) < Ahead(start, idx, n) ==> !IsEnabled(statusList, j)
  }

  /** The rank, among the enabled keys, of the key a poll from `index` takes. */
  function RankOf(statusList: map<int, int>, n: nat, index: int): nat
    requires EnabledUpTo(statusList, n) != []
  {
    Wrap(|EnabledUpTo(statusList, StartOf(index, n))|, |EnabledUpTo(statusList, n)|)
  }

  /** The key a poll takes: the first enabled one at or after the start,
      wrapping around, described by rank. */
  function PollIndex(statusList: map<int, int>, n: nat, index: int): nat
    requires EnabledUpTo(statusList, n) != []
  {
    EnabledUpTo(statusList, n)[RankOf(statusList, n, index)]
  }

  /** Where position idx stands among the enabled keys. */
  lemma {:induction false} PositionOf(statusList: map<int, int>, n: nat, idx: nat)
    requires idx < n && IsEnabled(statusList, idx)
    ensures |EnabledUpTo(statusList, idx)| < |EnabledUpTo(statusList, n)|
    ensures EnabledUpTo(statusList, n)[|EnabledUpTo(statusList, idx)|] == idx
  {
    EnabledPrefix(statusList, idx + 1, n);
    var before := EnabledUpTo(statusList, idx);
    var upTo := EnabledUpTo(statusList, idx + 1);
    assert upTo == before + [idx];
    assert upTo[|before|] == idx;
  }

  /** Scanning upwards from the start finds the key of that rank. */
  lemma {:induction false} ScanFindsRank(statusList: map<int, int>, n: nat, index: int, idx: nat)
    requires idx < n && IsEnabled(statusList, idx)
    requires var start := StartOf(index, n);
             || (start <= idx && EnabledUpTo(statusList, idx) == EnabledUpTo(statusList, start))
             || (idx < start && EnabledUpTo(statusList, start) == EnabledUpTo(statusList, n)
                 && EnabledUpTo(statusList, idx) == [])
    ensures EnabledUpTo(statusList, n) != []
    ensures PollIndex(statusList, n, index) == idx
  {
    hide EnabledUpTo;
    PositionOf(statusList, n, idx);
    assert Wrap(0, |EnabledUpTo(statusList, n)|) == 0;
  }

  lemma {:induction false} NoneBetween(statusList: map<int, int>, lo: nat, hi: nat)
    requires lo <= hi && forall j: nat :: lo <= j < hi ==> !IsEnabled(statusList, j)
    ensures EnabledUpTo(statusList, hi) == EnabledUpTo(statusList, lo)
    decreases hi - lo
  {
    if lo < hi {
      assert !IsEnabled(statusList, hi - 1);
      NoneBetween(statusList, lo, hi - 1);
    }
  }

  /** The polled key is the first enabled one from the saved position on, going
      round, or from 0 when that position is out of range. */
  lemma {:induction false} PollTakesFirst(statusList: map<int, int>, n: nat, index: int, idx: nat)
    requires FirstFrom(statusList, n, if 0 <= index < n then index else 0, idx)
    ensures EnabledUpTo(statusList, n) != [] && PollIndex(statusList, n, index) == idx
  {
    var start := StartOf(index, n);
    if start <= idx {
      forall j: nat | start <= j < idx ensures !IsEnabled(statusList, j) {
        assert Ahead(start, j, n) < Ahead(start, idx, n);
      }
      NoneBetween(statusList, start, idx);
    } else {
      forall j: nat | start <= j < n || j < idx ensures !IsEnabled(statusList, j) {
        assert Ahead(start, j, n) < Ahead(start, idx, n);
      }
      NoneBetween(statusList, start, n);
      NoneBetween(statusList, 0, idx);
    }
    ScanFindsRank(statusList, n, index, idx);
  }

  // ---------------------------------------------------------------------
  // Fairness
  // ---------------------------------------------------------------------

  /** The position saved after a poll. */
  function NextIndex(idx: nat, n: nat): nat
    requires n > 0
  {
    (idx + 1) % n
  }

  lemma {:induction false} NextIndexCases(idx: nat, n: nat)
    requires idx < n
    ensures NextIndex(idx, n) == if idx + 1 == n then 0 else idx + 1
  {
  }

  /** The positions taken by `calls` polls in a row, statuses fixed: each poll
      saves the position after the one it took. */
  function Polls(statusList: map<int, int>, n: nat, index: int, calls: nat): (taken: seq<nat>)
    requires EnabledUpTo(statusList, n) != []
    ensures |taken| == calls
    decreases calls
  {
    if calls == 0 then []
    else
      var idx := PollIndex(statusList, n, index);
      [idx] + Polls(statusList, n, NextIndex(idx, n), calls - 1)
  }

  /** Each rank's key is an enabled one with that many enabled keys below. */
  lemma {:induction false} RankIsPosition(statusList: map<int, int>, n: nat, r: nat)
    requires r < |EnabledUpTo(statusList, n)|
    ensures var idx := EnabledUpTo(statusList, n)[r];
            idx < n && IsEnabled(statusList, idx) && |EnabledUpTo(statusList, idx + 1)| == r + 1
  {
    var idx := EnabledUpTo(statusList, n)[r];
    EnabledUpToSound(statusList, n);
    PositionOf(statusList, n, idx);
    SamePosition(EnabledUpTo(statusList, n), r, |EnabledUpTo(statusList, idx)|);
    assert EnabledUpTo(statusList, idx + 1) == EnabledUpTo(statusList, idx) + [idx];
  }

  lemma {:induction false} SamePosition(es: seq<nat>, i: nat, j: nat)
    requires Increasing(es) && i < |es| && j < |es| && es[i] == es[j]
    ensures i == j
  {
  }

  /** One poll moves on by one rank. */
  lemma {:induction false} NextRank(statusList: map<int, int>, n: nat, index: int)
    requires EnabledUpTo(statusList, n) != []
    ensures PollIndex(statusList, n, index) < n
    ensures RankOf(statusList, n, NextIndex(PollIndex(statusList, n, index), n)) ==
              Wrap(RankOf(statusList, n, index) + 1, |EnabledUpTo(statusList, n)|)
  {
    var r := RankOf(statusList, n, index);
    var idx := PollIndex(statusList, n, index);
    assert EnabledUpTo(statusList, 0) == [];
    RankIsPosition(statusList, n, r);
    NextIndexCases(idx, n);
  }

  lemma {:induction false} WrapAgain(a: nat, b: nat, k: nat)
    requires k > 0
    ensures Wrap(Wrap(a, k) + b, k) == Wrap(a + b, k)
  {
    if a >= k { WrapAgain(a - k, b, k); }
  }

  /** Two numbers less than a turn apart wrap to the same rank only if equal. */
  lemma {:induction false} WrapDistinct(a: nat, b: nat, k: nat)
    requires k > 0 && a < b < a + k
    ensures Wrap(a, k) != Wrap(b, k)
  {
    if a >= k { WrapDistinct(a - k, b - k, k); }
  }

  /** The j-th poll takes the enabled key j ranks further on, cyclically. */
  lemma {:induction false} PollsRotate(statusList: map<int, int>, n: nat, index: int, calls: nat, j: nat)
    requires EnabledUpTo(statusList, n) != [] && j < calls
    ensures var es := EnabledUpTo(statusList, n);
            Polls(statusList, n, index, calls)[j] == es[Wrap(RankOf(statusList, n, index) + j, |es|)]
    decreases calls
  {
    hide EnabledUpTo, RankOf, NextIndex;
    var k := |EnabledUpTo(statusList, n)|;
    var r := RankOf(statusList, n, index);
    WrapAgain(r, 0, k);
    RankInRange(statusList, n, index);
    if j > 0 {
      NextRank(statusList, n, index);
      PollsRotate(statusList, n, NextIndex(PollIndex(statusList, n, index), n), calls - 1, j - 1);
      WrapAgain(r + 1, j - 1, k);
    }
  }

  lemma {:induction false} RankInRange(statusList: map<int, int>, n: nat, index: int)
    requires EnabledUpTo(statusList, n) != []
    ensures RankOf(statusList, n, index) < |EnabledUpTo(statusList, n)|
  {
  }

  /** Some step within a turn reaches any given rank. */
  lemma {:induction false} ReachRank(start: nat, t: nat, k: nat) returns (a: nat)
    requires t < k
    ensures a < k && Wrap(start + a, k) == t
  {
    var m := Wrap(start, k);
    a := if t >= m then t - m else t + k - m;
    WrapAgain(start, a, k);
  }

  /** Every poll takes an enabled key, of the rank it has moved on to. */
  lemma {:induction false} PollTakes(statusList: map<int, int>, n: nat, index: int, calls: nat, a: nat)
    requires EnabledUpTo(statusList, n) != [] && a < calls
    ensures var es := EnabledUpTo(statusList, n);
            var taken := Polls(statusList, n, index, calls)[a];
            && taken == es[Wrap(RankOf(statusList, n, index) + a, |es|)]
            && taken < n && IsEnabled(statusList, taken)
  {
    hide EnabledUpTo, Polls, RankOf, Wrap;
    PollsRotate(statusList, n, index, calls, a);
    RankIsPosition(statusList, n, Wrap(RankOf(statusList, n, index) + a, |EnabledUpTo(statusList, n)|));
  }

  /** Any k polls in a row reach each enabled key. */
  lemma {:induction false} WindowCovers(statusList: map<int, int>, n: nat, index: int, calls: nat, j: nat, p: nat)
    requires EnabledUpTo(statusList, n) != [] && j + |EnabledUpTo(statusList, n)| <= calls
    requires p < n && IsEnabled(statusList, p)
    ensures p in Polls(statusList, n, index, calls)[j..j + |EnabledUpTo(statusList, n)|]
  {
    hide EnabledUpTo, Polls, RankOf, Wrap;
    var es := EnabledUpTo(statusList, n);
    var k := |es|;
    var taken := Polls(statusList, n, index, calls);
    EnabledUpToComplete(statusList, n, p);
    var t :| 0 <= t < k && es[t] == p;
    var a := ReachRank(RankOf(statusList, n, index) + j, t, k);
    PollTakes(statusList, n, index, calls, j + a);
    assert RankOf(statusList, n, index) + (j + a) == RankOf(statusList, n, index) + j + a;
    assert taken[j..j + k][a] == taken[j + a];
  }

  /** Two polls less than a turn apart take different keys, and two a turn apart
      the same. */
  lemma {:induction false} WindowDistinct(statusList: map<int, int>, n: nat, index: int, calls: nat, a: nat, b: nat)
    requires EnabledUpTo(statusList, n) != [] && a < b < calls && b <= a + |EnabledUpTo(statusList, n)|
    ensures var taken := Polls(statusList, n, index, calls);
            taken[a] == taken[b] <==> b == a + |EnabledUpTo(statusList, n)|
  {
    hide EnabledUpTo, Polls, RankOf;
    var es := EnabledUpTo(statusList, n);
    var k := |es|;
    var r := RankOf(statusList, n, index);
    PollTakes(statusList, n, index, calls, a);
    PollTakes(statusList, n, index, calls, b);
    if b == a + k {
      assert Wrap(r + b, k) == Wrap(r + a, k);
    } else {
      WrapDistinct(r + a, r + b, k);
      EnabledUpToSound(statusList, n);
      DifferentPositions(es, Wrap(r + a, k), Wrap(r + b, k));
    }
  }

  /** Polling is fair: over any k consecutive polls, k being the number of
      enabled keys, every enabled key is taken exactly once; poll j + k repeats
      poll j; and only enabled keys are taken, whatever position was saved. */
  lemma {:induction false} PollingIsFair(statusList: map<int, int>, n: nat, index: int, calls: nat, j: nat)
    requires EnabledUpTo(statusList, n) != [] && j + |EnabledUpTo(statusList, n)| <= calls
    ensures var k := |EnabledUpTo(statusList, n)|;
            var taken := Polls(statusList, n, index, calls);
            && (forall p: nat :: p < n && IsEnabled(statusList, p) ==> p in taken[j..j + k])
            && (forall a, b :: j <= a < b < j + k ==> taken[a] != taken[b])
            && (j + k < calls ==> taken[j + k] == taken[j])
            && (forall a :: 0 <= a < calls ==> taken[a] < n && IsEnabled(statusList, taken[a]))
  {
    hide *;
    var k := |EnabledUpTo(statusList, n)|;
    var taken := Polls(statusList, n, index, calls);
    forall a | 0 <= a < calls ensures taken[a] < n && IsEnabled(statusList, taken[a]) {
      PollTakes(statusList, n, index, calls, a);
    }
    forall p: nat | p < n && IsEnabled(statusList, p) ensures p in taken[j..j + k] {
      WindowCovers(statusList, n, index, calls, j, p);
    }
    forall a, b | j <= a < b < j + k ensures taken[a] != taken[b] {
      WindowDistinct(statusList, n, index, calls, a, b);
    }
    if j + k < calls { WindowDistinct(statusList, n, index, calls, j, j + k); }
  }

  lemma {:induction false} DifferentPositions(es: seq<nat>, i: nat, j: nat)
    requires Increasing(es) && i < |es| && j < |es| && i != j
    ensures es[i] != es[j]
  {
    if i < j { assert es[i] < es[j]; } else { assert es[j] < es[i]; }
  }
}
