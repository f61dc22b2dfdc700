/** Which priority level each attempt of a request uses. */
module RetrySchedule {

  /** mapRetryToPriorityIndex. */
  function MapRetryToPriorityIndex(retry: int, numPriorities: int, totalAttempts: int): (idx: int)
    ensures numPriorities > 0 ==> 0 <= idx < numPriorities
    ensures retry <= 0 || numPriorities <= 0 ==> idx == 0
  {
    if numPriorities <= 0 then 0
    else if retry < 0 then 0
    else
      var attempts := if totalAttempts < numPriorities then numPriorities else totalAttempts;
      var extras := attempts - numPriorities;
      var firstBucketCount := 1 + if extras < 0 then 0 else extras;
      if retry < firstBucketCount then 0
      else
        var remaining := retry - firstBucketCount;
        var idx := 1 + remaining;
        if idx >= numPriorities then numPriorities - 1 else idx
  }

  /** The levels `lo`, `lo + 1`, ..., `hi - 1`. */
  function Levels(lo: nat, hi: nat): (s: seq<nat>)
    requires lo <= hi
    ensures |s| == hi - lo
    ensures forall i :: 0 <= i < |s| ==> s[i] == lo + i
    decreases hi - lo
  {
    if lo == hi then [] else [lo] + Levels(lo + 1, hi)
  }

  function Repeat(x: nat, n: nat): (s: seq<nat>)
    ensures |s| == n && forall i :: 0 <= i < n ==> s[i] == x
  {
    if n == 0 then [] else [x] + Repeat(x, n - 1)
  }

  /** The schedule the comments promise, written out as a list: the highest
      level takes every extra attempt, then each level below takes one. */
  function Schedule(numPriorities: nat, totalAttempts: nat): (s: seq<nat>)
    requires numPriorities > 0
    ensures |s| == totalAttempts
  {
    if totalAttempts < numPriorities then Levels(0, totalAttempts)
    else Repeat(0, totalAttempts - numPriorities + 1) + Levels(1, numPriorities)
  }

  /** The arithmetic and the written-out schedule agree on every attempt. */
  lemma {:induction false} MapFollowsSchedule(retry: nat, numPriorities: nat, totalAttempts: nat)
    requires numPriorities > 0 && retry < totalAttempts
    ensures MapRetryToPriorityIndex(retry, numPriorities, totalAttempts)
        == Schedule(numPriorities, totalAttempts)[retry]
  {
    if totalAttempts < numPriorities {
      assert Schedule(numPriorities, totalAttempts) == Levels(0, totalAttempts);
    } else {
      var extra := totalAttempts - numPriorities;
      assert retry >= extra + 1 ==>
          (Repeat(0, extra + 1) + Levels(1, numPriorities))[retry] == Levels(1, numPriorities)[retry - (extra + 1)];
    }
  }

  /** How many of the first `n` attempts use a level. */
  function Uses(level: nat, numPriorities: nat, totalAttempts: nat, n: nat): nat {
    if n == 0 then 0
    else Uses(level, numPriorities, totalAttempts, n - 1)
         + if MapRetryToPriorityIndex(n - 1, numPriorities, totalAttempts) == level then 1 else 0
  }

  lemma {:induction false} UsesPrefix(level: nat, numPriorities: nat, totalAttempts: nat, n: nat)
    requires level < numPriorities <= totalAttempts && n <= totalAttempts
    ensures var extra := totalAttempts - numPriorities;
            Uses(level, numPriorities, totalAttempts, n) ==
              if level == 0 then (if n <= extra then n else extra + 1)
              else if n <= extra + level then 0 else 1
  {
    if n > 0 { UsesPrefix(level, numPriorities, totalAttempts, n - 1); }
  }

  /** With enough attempts every level is used: the highest once plus every
      extra attempt, each other exactly once. */
  lemma {:induction false} EveryLevelUsed(level: nat, numPriorities: nat, totalAttempts: nat)
    requires level < numPriorities <= totalAttempts
    ensures Uses(level, numPriorities, totalAttempts, totalAttempts) ==
              if level == 0 then totalAttempts - numPriorities + 1 else 1
  {
    UsesPrefix(level, numPriorities, totalAttempts, totalAttempts);
  }

  /** Over growing retries the level starts at the top, never goes back up,
      never skips a level, and stays at the last one once it is reached. */
  lemma {:induction false} LevelsDescendOneByOne(retry: nat, later: nat, numPriorities: nat, totalAttempts: int)
    requires numPriorities > 0 && retry <= later
    ensures MapRetryToPriorityIndex(0, numPriorities, totalAttempts) == 0
    ensures MapRetryToPriorityIndex(retry, numPriorities, totalAttempts)
            <= MapRetryToPriorityIndex(later, numPriorities, totalAttempts)
            <= MapRetryToPriorityIndex(retry, numPriorities, totalAttempts) + (later - retry)
    ensures MapRetryToPriorityIndex(retry, numPriorities, totalAttempts) == numPriorities - 1 ==>
              MapRetryToPriorityIndex(later, numPriorities, totalAttempts) == numPriorities - 1
    ensures totalAttempts < numPriorities && retry < totalAttempts ==>
              MapRetryToPriorityIndex(retry, numPriorities, totalAttempts) == retry
  {
  }
}
