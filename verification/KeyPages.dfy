/** The paged key-status listing of a multi-key channel. */
module KeyPages {
  import Bytes
  import Decimal
  import opened KeyPolling

  datatype KeyStatus = KeyStatus(index: nat, status: int)

  /** Every key's status, in order. */
  function AllStatuses(statusList: map<int, int>, n: nat): (r: seq<KeyStatus>)
    ensures |r| == n
    ensures forall i :: 0 <= i < n ==> r[i] == KeyStatus(i, StatusAt(statusList, i))
  {
    if n == 0 then [] else AllStatuses(statusList, n - 1) + [KeyStatus(n - 1, StatusAt(statusList, n - 1))]
  }

  function WithStatus(all: seq<KeyStatus>, status: int): seq<KeyStatus> {
    if all == [] then []
    else
      var last := all[|all| - 1];
      WithStatus(all[..|all| - 1], status) + if last.status == status then [last] else []
  }

  function PageSizeOf(requested: int): (r: nat)
    ensures r > 0
  {
    if requested <= 0 then 50 else requested
  }

  function TotalPages(total: nat, pageSize: nat): (r: nat)
    requires pageSize > 0
    ensures r > 0
  {
    var r := (total + pageSize - 1) / pageSize;
    if r == 0 then 1 else r
  }

  /** Division as the machine does it, towards zero. */
  function Quotient(a: int, b: nat): int
    requires b > 0
  {
    if a >= 0 then a / b else -((-a) / b)
  }

  /** The number of pages as computed in 64-bit integers, where the sum wraps. */
  function MachineTotalPages(total: nat, pageSize: nat): int
    requires pageSize > 0
  {
    var r := Quotient(Decimal.WrapInt64(total + pageSize - 1), pageSize);
    if r == 0 then 1 else r
  }

  /** The number of entries on the pages before. */
  function Offset(pagesBefore: nat, pageSize: nat): nat { pagesBefore * pageSize }

  /** The page answered: a request below 1 means the first, one past the last
      means the last. */
  function PageOf(list: seq<KeyStatus>, page: int, pageSize: nat): seq<KeyStatus>
    requires pageSize > 0
  {
    var first := if page <= 0 then 1 else page;
    var used := Bytes.Min(first, TotalPages(|list|, pageSize));
    var start := Offset(used - 1, pageSize);
    var end := Bytes.Min(start + pageSize, |list|);
    if start < |list| then list[start..end] else []
  }

  /** The pages from 1 to `upTo`, one after the other. */
  function PagesUpTo(list: seq<KeyStatus>, upTo: nat, pageSize: nat): seq<KeyStatus>
    requires pageSize > 0
  {
    if upTo == 0 then [] else PagesUpTo(list, upTo - 1, pageSize) + PageOf(list, upTo, pageSize)
  }

  lemma {:induction false} PageBounds(total: nat, pageSize: nat)
    requires pageSize > 0
    ensures total <= Offset(TotalPages(total, pageSize), pageSize)
    ensures total > 0 ==> Offset(TotalPages(total, pageSize) - 1, pageSize) < total
  {
    var q := (total + pageSize - 1) / pageSize;
    assert total + pageSize - 1 == q * pageSize + (total + pageSize - 1) % pageSize;
    assert (q - 1) * pageSize == q * pageSize - pageSize;
    if q == 0 { assert q * pageSize == 0; }
  }

  lemma {:induction false} OffsetSteps(page: nat, last: nat, pageSize: nat)
    requires page <= last
    ensures Offset(page, pageSize) <= Offset(last, pageSize)
    ensures Offset(page + 1, pageSize) == Offset(page, pageSize) + pageSize
    ensures Offset(0, pageSize) == 0
  {
    assert last * pageSize - page * pageSize == (last - page) * pageSize;
    assert (last - page) * pageSize >= 0;
  }

  /** A page within range is its stretch of the list. */
  lemma {:induction false} PageInRange(list: seq<KeyStatus>, page: nat, pageSize: nat)
    requires pageSize > 0 && 1 <= page <= TotalPages(|list|, pageSize)
    ensures list != [] ==> Offset(page - 1, pageSize) < |list|
    ensures list != [] ==>
              PageOf(list, page, pageSize) ==
              list[Offset(page - 1, pageSize)..Bytes.Min(Offset(page, pageSize), |list|)]
    ensures list == [] ==> PageOf(list, page, pageSize) == []
  {
    PageBounds(|list|, pageSize);
    OffsetSteps(page - 1, TotalPages(|list|, pageSize) - 1, pageSize);
    hide TotalPages, Offset;
  }

  lemma {:induction false} PrefixGrows(list: seq<KeyStatus>, start: nat, end: nat)
    requires start <= end <= |list|
    ensures list[..start] + list[start..end] == list[..end]
  {
  }

  /** The first pages hold the first entries. */
  lemma {:induction false} PagesArePrefix(list: seq<KeyStatus>, upTo: nat, pageSize: nat)
    requires pageSize > 0 && upTo <= TotalPages(|list|, pageSize)
    ensures PagesUpTo(list, upTo, pageSize) == list[..Bytes.Min(Offset(upTo, pageSize), |list|)]
  {
    OffsetSteps(0, upTo, pageSize);
    if upTo > 0 {
      hide TotalPages, Offset, PageOf;
      PagesArePrefix(list, upTo - 1, pageSize);
      PageInRange(list, upTo, pageSize);
      OffsetSteps(upTo - 1, upTo, pageSize);
      if list != [] {
        PrefixGrows(list, Offset(upTo - 1, pageSize), Bytes.Min(Offset(upTo, pageSize), |list|));
        hide PagesUpTo;
      }
    }
  }

  lemma {:induction false} FullPage(list: seq<KeyStatus>, page: nat, pageSize: nat)
    requires pageSize > 0 && 1 <= page < TotalPages(|list|, pageSize)
    ensures |PageOf(list, page, pageSize)| == pageSize
  {
    PageBounds(|list|, pageSize);
    PageInRange(list, page, pageSize);
    OffsetSteps(page, TotalPages(|list|, pageSize) - 1, pageSize);
    OffsetSteps(page - 1, page, pageSize);
    hide TotalPages, Offset;
  }

  lemma {:induction false} PageClamped(list: seq<KeyStatus>, page: int, pageSize: nat)
    requires pageSize > 0
    ensures var used := Bytes.Min(if page <= 0 then 1 else page, TotalPages(|list|, pageSize));
            PageOf(list, page, pageSize) == PageOf(list, used, pageSize)
  {
    hide TotalPages, Offset;
  }

  /** The pages, concatenated, are the filtered list, each entry once and in
      order; every page but the last is full; every page past the last repeats the last, and every page below the
      first is the first. */
  lemma {:induction false} PagesCoverList(list: seq<KeyStatus>, requestedSize: int, page: int)
    ensures var size := if requestedSize <= 0 then 50 else requestedSize;
            var last := TotalPages(|list|, size);
            && size == PageSizeOf(requestedSize)
            && (forall p :: 1 <= p < last ==> |PageOf(list, p, size)| == size)
            && PagesUpTo(list, last, size) == list
            && (page > last ==> PageOf(list, page, size) == PageOf(list, last, size))
            && (page <= 0 ==> PageOf(list, page, size) == PageOf(list, 1, size))
            && (|list| > 0 ==> PageOf(list, page, size) != [])
            && |PageOf(list, page, size)| <= size
  {
    var size := PageSizeOf(requestedSize);
    var last := TotalPages(|list|, size);
    PagesArePrefix(list, last, size);
    PageBounds(|list|, size);
    PageClamped(list, page, size);
    var used := Bytes.Min(if page <= 0 then 1 else page, last);
    PageInRange(list, used, size);
    OffsetSteps(used - 1, used, size);
    forall p | 1 <= p < last ensures |PageOf(list, p, size)| == size { FullPage(list, p, size); }
    hide TotalPages, PagesUpTo, Offset, PageOf;
  }

  /** For a list that fits a memory, the machine counts the pages right exactly
      when the sum does not wrap, or wraps to less than one page below zero; in
      between the count is -1. */
  lemma {:induction false} PageCountExact(total: nat, pageSize: nat)
    requires total <= 0x4000_0000_0000_0000 && 0 < pageSize <= Decimal.MAX_INT64
    ensures MachineTotalPages(total, pageSize) == TotalPages(total, pageSize) <==>
            total + pageSize - 1 <= Decimal.MAX_INT64 || total + 2 * pageSize > 0x1_0000_0000_0000_0000 + 1
    ensures MachineTotalPages(total, pageSize) == TotalPages(total, pageSize)
            || MachineTotalPages(total, pageSize) == -1
  {
    if total + pageSize - 1 > Decimal.MAX_INT64 { WrappedCount(total, pageSize); }
  }

  lemma {:induction false} WrappedCount(total: nat, pageSize: nat)
    requires total <= 0x4000_0000_0000_0000 && 0 < pageSize <= Decimal.MAX_INT64 < total + pageSize - 1
    ensures TotalPages(total, pageSize) == 1
    ensures MachineTotalPages(total, pageSize) ==
              if total + 2 * pageSize > 0x1_0000_0000_0000_0000 + 1 then 1 else -1
  {
    var below := 0x1_0000_0000_0000_0000 - (total + pageSize - 1);
    assert Decimal.WrapInt64(total + pageSize - 1) == -below;
    SmallQuotient(below, pageSize);
    SmallQuotient(total + pageSize - 1, pageSize);
  }

  lemma {:induction false} SmallQuotient(a: nat, b: nat)
    requires b > 0 && a < 2 * b
    ensures a / b == if a < b then 0 else 1
  {
    var q := a / b;
    assert a == b * q + a % b;
    assert q >= 2 ==> b * q >= b * 2;
  }

  /** Where the count is right nothing later wraps: the pages start and end within
      the 64-bit range. */
  lemma {:induction false} PagesFitMachine(list: seq<KeyStatus>, page: nat, pageSize: nat)
    requires |list| <= 0x4000_0000_0000_0000 && 0 < pageSize <= Decimal.MAX_INT64
    requires MachineTotalPages(|list|, pageSize) == TotalPages(|list|, pageSize)
    requires 1 <= page <= TotalPages(|list|, pageSize)
    ensures Offset(page - 1, pageSize) + pageSize <= Decimal.MAX_INT64
  {
    PageBounds(|list|, pageSize);
    OffsetSteps(page - 1, TotalPages(|list|, pageSize) - 1, pageSize);
    OffsetSteps(0, 0, pageSize);
    if list == [] {
      assert TotalPages(0, pageSize) == 1 by { SmallQuotient(pageSize - 1, pageSize); }
    }
    if |list| + pageSize - 1 > Decimal.MAX_INT64 { WrappedCount(|list|, pageSize); }
    hide TotalPages, MachineTotalPages, Offset;
  }

  /** Three keys and a page size of 2^63-1: the count is -1, so the page asked for
      becomes -1, and it would start past its end. */
  lemma {:induction false} HugePageMiscounts()
    ensures var count := MachineTotalPages(3, Decimal.MAX_INT64);
            var start := Decimal.WrapInt64((count - 1) * Decimal.MAX_INT64);
            count == -1 && start == 2 && Decimal.WrapInt64(start + Decimal.MAX_INT64) < 0
    ensures TotalPages(3, Decimal.MAX_INT64) == 1
  {
    PageCountExact(3, Decimal.MAX_INT64);
    SmallQuotient(Decimal.MAX_INT64 + 2, Decimal.MAX_INT64);
  }

  ghost predicate InOrder(l: seq<KeyStatus>) { forall i, j :: 0 <= i < j < |l| ==> l[i].index < l[j].index }

  lemma {:induction false} WithStatusExact(all: seq<KeyStatus>, status: int)
    requires InOrder(all)
    ensures forall x :: x in WithStatus(all, status) <==> x in all && x.status == status
    ensures InOrder(WithStatus(all, status))
  {
    if all != [] {
      var init := all[..|all| - 1];
      var last := all[|all| - 1];
      WithStatusExact(init, status);
      assert all == init + [last];
      var kept := WithStatus(init, status);
      forall i | 0 <= i < |kept| ensures kept[i].index < last.index {
        assert kept[i] in kept;
        assert kept[i] in init;
      }
    }
  }

  /** The filter keeps exactly the keys of the asked status, in order. */
  lemma {:induction false} FilterExact(statusList: map<int, int>, n: nat, status: int)
    ensures var kept := WithStatus(AllStatuses(statusList, n), status);
            && (forall x :: x in kept <==> x.index < n && x.status == status == StatusAt(statusList, x.index))
            && InOrder(kept)
  {
    hide AllStatuses, WithStatus, StatusAt;
    var all := AllStatuses(statusList, n);
    WithStatusExact(all, status);
    forall x ensures x in all <==> x.index < n && x.status == StatusAt(statusList, x.index) {
      if x.index < n { assert all[x.index] in all; }
    }
  }
}
