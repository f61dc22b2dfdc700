/** The two weighted random choices: the smoothed one over the cache and the
    plain one over ability rows.  The random draw is an argument. */
module WeightedPick {

  function Sum(ws: seq<nat>): nat {
    if ws == [] then 0 else ws[0] + Sum(ws[1..])
  }

  /** The smoothing of GetRandomSatisfiedChannel: every channel's effective
      weight, given the raw weights of the channels at the chosen priority. */
  function SmoothingFactor(ws: seq<nat>): nat
    requires ws != []
  {
    if Sum(ws) != 0 && Sum(ws) / |ws| < 10 then 100 else 1
  }

  function SmoothingAdjustment(ws: seq<nat>): nat {
    if Sum(ws) == 0 then 100 else 0
  }

  /** The bound handed to rand.Intn. */
  function TotalWeight(ws: seq<nat>): nat
    requires ws != []
  {
    (if Sum(ws) == 0 then |ws| * 100 else Sum(ws)) * SmoothingFactor(ws)
  }

  function Effective(ws: seq<nat>, factor: nat, adjustment: nat): (es: seq<nat>)
    ensures |es| == |ws| && forall i :: 0 <= i < |ws| ==> es[i] == ws[i] * factor + adjustment
  {
    if ws == [] then [] else [ws[0] * factor + adjustment] + Effective(ws[1..], factor, adjustment)
  }

  function Smoothed(ws: seq<nat>): (es: seq<nat>)
    requires ws != []
    ensures |es| == |ws|
  {
    Effective(ws, SmoothingFactor(ws), SmoothingAdjustment(ws))
  }

  lemma {:induction false} Distribute(a: nat, b: nat, c: nat)
    ensures (a + b) * c == a * c + b * c
  {
  }

  lemma {:induction false} SumEffective(ws: seq<nat>, factor: nat, adjustment: nat)
    ensures Sum(Effective(ws, factor, adjustment)) == Sum(ws) * factor + |ws| * adjustment
  {
    if ws != [] {
      SumEffective(ws[1..], factor, adjustment);
      var es := Effective(ws, factor, adjustment);
      assert es[1..] == Effective(ws[1..], factor, adjustment);
      Distribute(ws[0], Sum(ws[1..]), factor);
      Distribute(1, |ws[1..]|, adjustment);
    }
  }

  /** In all three smoothing cases the bound is positive and is the sum of the
      effective weights, so no draw falls through the loop. */
  lemma {:induction false} TotalIsSumOfEffective(ws: seq<nat>)
    requires ws != []
    ensures TotalWeight(ws) == Sum(Smoothed(ws)) && TotalWeight(ws) > 0
    ensures TotalWeight(ws) == if Sum(ws) == 0 then 100 * |ws| else if Sum(ws) / |ws| < 10 then 100 * Sum(ws)
        else Sum(ws)
  {
    SumEffective(ws, SmoothingFactor(ws), SmoothingAdjustment(ws));
  }

  /** The sum of the first `n` weights. */
  function Prefix(es: seq<nat>, n: nat): nat
    requires n <= |es|
  {
    Sum(es[..n])
  }

  lemma {:induction false} SumSnoc(es: seq<nat>, e: nat)
    ensures Sum(es + [e]) == Sum(es) + e
  {
    if es == [] {
      assert es + [e] == [e];
    } else {
      SumSnoc(es[1..], e);
      assert (es + [e])[1..] == es[1..] + [e];
    }
  }

  lemma {:induction false} PrefixZero(es: seq<nat>)
    ensures Prefix(es, 0) == 0
  {
    assert es[..0] == [];
  }

  lemma {:induction false} PrefixStep(es: seq<nat>, i: nat)
    requires i < |es|
    ensures Prefix(es, i + 1) == Prefix(es, i) + es[i]
  {
    assert es[..i + 1] == es[..i] + [es[i]];
    SumSnoc(es[..i], es[i]);
  }

  lemma {:induction false} PrefixMonotone(es: seq<nat>, i: nat, j: nat)
    requires i <= j <= |es|
    ensures Prefix(es, i) <= Prefix(es, j)
    ensures j == |es| ==> Prefix(es, j) == Sum(es)
    decreases j - i
  {
    assert es[..|es|] == es;
    if i < j {
      PrefixStep(es, i);
      PrefixMonotone(es, i + 1, j);
    }
  }

  // ---------------------------------------------------------------------
  // The smoothed choice
  // ---------------------------------------------------------------------

  /** A draw lands on the channel whose stretch of [0, total) contains it. */
  ghost predicate LandsOn(es: seq<nat>, draw: int, i: int) {
    0 <= i < |es| && Prefix(es, i) <= draw < Prefix(es, i + 1)
  }

  lemma {:induction false} LandsOnUnique(es: seq<nat>, draw: int, i: int, j: int)
    requires LandsOn(es, draw, i) && LandsOn(es, draw, j)
    ensures i == j
  {
    if i < j { PrefixMonotone(es, i + 1, j); }
    if j < i { PrefixMonotone(es, j + 1, i); }
  }

  /** The loop that subtracts effective weights until the draw goes below 0.
      "channel not found" is unreachable: every draw below the sum lands. */
  method Pick(ws: seq<nat>, factor: nat, adjustment: nat, draw: nat) returns (found: bool, index: nat)
    ensures found <==> draw < Sum(Effective(ws, factor, adjustment))
    ensures found ==> index < |ws| && LandsOn(Effective(ws, factor, adjustment), draw, index)
  {
    ghost var es := Effective(ws, factor, adjustment);
    var randomWeight: int := draw;
    index := 0;
    PrefixZero(es);
    while index < |ws|
      invariant 0 <= index <= |ws|
      invariant randomWeight == draw - Prefix(es, index)
      invariant randomWeight >= 0
    {
      randomWeight := randomWeight - (ws[index] * factor + adjustment);
      PrefixStep(es, index);
      if randomWeight < 0 {
        PrefixMonotone(es, index + 1, |es|);
        return true, index;
      }
      index := index + 1;
    }
    PrefixMonotone(es, |es|, |es|);
    return false, 0;
  }

  /** Every draw in range lands on some channel. */
  lemma {:induction false} EveryDrawLands(es: seq<nat>, draw: nat, n: nat) returns (i: nat)
    requires n <= |es| && draw < Prefix(es, n)
    ensures i < n && LandsOn(es, draw, i)
    decreases n
  {
    PrefixZero(es);
    PrefixStep(es, n - 1);
    if draw < Prefix(es, n - 1) {
      i := EveryDrawLands(es, draw, n - 1);
    } else {
      i := n - 1;
    }
  }

  predicate Between(lo: int, d: int, hi: int) { lo <= d < hi }

  ghost function Range(lo: int, hi: int): (s: set<int>)
    ensures forall d :: d in s <==> Between(lo, d, hi)
  {
    set d | lo <= d < hi && Between(lo, d, hi)
  }

  lemma {:induction false} RangeSize(lo: int, hi: int)
    requires lo <= hi
    ensures |Range(lo, hi)| == hi - lo
    decreases hi - lo
  {
    if lo < hi {
      RangeSize(lo, hi - 1);
      assert Range(lo, hi) == Range(lo, hi - 1) + {hi - 1};
    } else {
      assert Range(lo, hi) == {};
    }
  }

  /** The draws in [0, total) that select a channel. */
  ghost function DrawsFor(es: seq<nat>, i: nat): set<int> {
    set d | 0 <= d < Sum(es) && LandsOn(es, d, i)
  }

  /** The draw selects one channel and no other. */
  ghost predicate SelectsOne(es: seq<nat>, draw: int) {
    && (exists j :: LandsOn(es, draw, j))
    && (forall j, k :: LandsOn(es, draw, j) && LandsOn(es, draw, k) ==> j == k)
  }

  lemma {:induction false} AtMostSum(ws: seq<nat>, i: nat)
    requires i < |ws|
    ensures ws[i] <= Sum(ws)
  {
    if i > 0 { AtMostSum(ws[1..], i - 1); }
  }

  lemma {:induction false} DrawsForCount(es: seq<nat>, i: nat)
    requires i < |es|
    ensures |DrawsFor(es, i)| == es[i]
  {
    PrefixZero(es);
    PrefixMonotone(es, 0, i);
    PrefixMonotone(es, i + 1, |es|);
    PrefixStep(es, i);
    RangeSize(Prefix(es, i), Prefix(es, i + 1));
    assert DrawsFor(es, i) == Range(Prefix(es, i), Prefix(es, i + 1));
  }

  /** The choice is exact and total: a channel is selected by 100 of the equally
      likely draws when all weights are 0, by 100 for each unit of its weight when
      they average below 10, and by one for each unit otherwise; and every draw
      selects exactly one channel. */
  lemma {:induction false} PickIsExact(ws: seq<nat>, i: nat)
    requires i < |ws|
    ensures |DrawsFor(Smoothed(ws), i)| ==
              if Sum(ws) == 0 then 100 else if Sum(ws) / |ws| < 10 then 100 * ws[i] else ws[i]
    ensures forall d :: 0 <= d < TotalWeight(ws) ==> SelectsOne(Smoothed(ws), d)
  {
    var es := Smoothed(ws);
    TotalIsSumOfEffective(ws);
    DrawsForCount(es, i);
    AtMostSum(ws, i);
    PrefixMonotone(es, |es|, |es|);
    forall d | 0 <= d < TotalWeight(ws) ensures SelectsOne(es, d) {
      var j := EveryDrawLands(es, d, |es|);
      forall i, k | LandsOn(es, d, i) && LandsOn(es, d, k) ensures i == k {
        LandsOnUnique(es, d, i, k);
      }
    }
  }

  // ---------------------------------------------------------------------
  // The choice over ability rows
  // ---------------------------------------------------------------------

  /** GetChannel stops when the remainder is at most 0, one draw too early for
      every row but the last. */
  ghost predicate LandsOnRow(es: seq<nat>, draw: int, i: int) {
    0 <= i < |es| && draw <= Prefix(es, i + 1) && (i > 0 ==> Prefix(es, i) < draw)
  }

  /** GetChannel's loop over rows already ordered by weight; `draw` comes from
      GetRandomInt over the sum of weight + 10. */
  method PickRow(ws: seq<nat>, draw: nat) returns (index: nat)
    requires ws != [] && draw < Sum(Effective(ws, 1, 10))
    ensures index < |ws| && LandsOnRow(Effective(ws, 1, 10), draw, index)
  {
    ghost var es := Effective(ws, 1, 10);
    var weight: int := draw;
    index := 0;
    PrefixZero(es);
    while index < |ws|
      invariant 0 <= index <= |ws|
      invariant weight == draw - Prefix(es, index)
      invariant index > 0 ==> weight > 0
    {
      weight := weight - (ws[index] + 10);
      PrefixStep(es, index);
      if weight <= 0 {
        return index;
      }
      index := index + 1;
    }
    PrefixMonotone(es, |es|, |es|);
    assert false;
  }

  ghost function DrawsForRow(es: seq<nat>, i: nat): set<int> {
    set d | 0 <= d < Sum(es) && LandsOnRow(es, d, i)
  }

  /** The exact odds of GetChannel: weight + 10 draws each, except that the
      first row gains one draw and the last row loses one.  Every row can
      still be chosen. */
  lemma {:induction false} RowOdds(ws: seq<nat>, i: nat)
    requires i < |ws|
    ensures |DrawsForRow(Effective(ws, 1, 10), i)| ==
              ws[i] + 10 + (if i == 0 then 1 else 0) - (if i == |ws| - 1 then 1 else 0)
  {
    var es := Effective(ws, 1, 10);
    PrefixZero(es);
    PrefixMonotone(es, 0, i);
    PrefixMonotone(es, i + 1, |es|);
    PrefixStep(es, i);
    var lo := if i == 0 then 0 else Prefix(es, i) + 1;
    var hi := if i == |es| - 1 then Sum(es) else Prefix(es, i + 1) + 1;
    if i < |es| - 1 {
      PrefixStep(es, i + 1);
      PrefixMonotone(es, i + 2, |es|);
    } else {
      PrefixMonotone(es, |es|, |es|);
    }
    RangeSize(lo, hi);
    assert DrawsForRow(es, i) == Range(lo, hi);
  }
}
