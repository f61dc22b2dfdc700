/** Making body stores: when a body goes to disk, what is counted, and which
    bodies are refused as too large. */
module BodyCache {
  import opened Wrappers
  import opened Decimal
  import opened Bytes
  import opened BodyStorage
  import opened BodyPreview

  /** What io.LimitReader(body, maxBytes+1) lets through; the addition wraps. */
  function LetThrough(body: seq<Byte>, maxBytes: int): seq<Byte> {
    body[..Min(Max(WrapInt64(maxBytes + 1), 0), |body|)]
  }

  /** A reader that delivers the body and then fails is noticed only when the limit
      lets the reading go past the body. */
  predicate FailureReached(body: seq<Byte>, maxBytes: int, readerFails: bool) {
    readerFails && WrapInt64(maxBytes + 1) > |body|
  }

  /** The size test finds exactly the bodies longer than the limit, and keeps
      every other body whole, for every limit but the largest 64-bit number,
      under which every body is kept as empty. */
  lemma {:induction false} SizeTestExact(body: seq<Byte>, maxBytes: int)
    requires IsInt64(maxBytes) && |body| <= MAX_INT64
    ensures var kept := LetThrough(body, maxBytes);
            ((|kept| > maxBytes <==> |body| > maxBytes) && (|kept| <= maxBytes ==> kept == body))
            <==> maxBytes != MAX_INT64 || body == []
    ensures maxBytes == MAX_INT64 ==> LetThrough(body, maxBytes) == []
  {
    if maxBytes != MAX_INT64 && |body| <= maxBytes {
      assert LetThrough(body, maxBytes) == body;
    }
  }

  class DiskCache {
    const enabled: bool
    const threshold: int
    const maxDiskBytes: int
    var diskFiles: int
    var diskBytes: int
    var memoryBuffers: int
    var memoryBytes: int
    var diskHits: int
    var memoryHits: int

    constructor (enabled: bool, threshold: int, maxDiskBytes: int)
      ensures this.enabled == enabled && this.threshold == threshold && this.maxDiskBytes == maxDiskBytes
      ensures diskFiles == diskBytes == memoryBuffers == memoryBytes == diskHits == memoryHits == 0
    {
      this.enabled, this.threshold, this.maxDiskBytes := enabled, threshold, maxDiskBytes;
      diskFiles, diskBytes, memoryBuffers, memoryBytes, diskHits, memoryHits := 0, 0, 0, 0, 0, 0;
    }

    /** IsDiskCacheAvailable; the sum is a machine one. */
    predicate Available(size: int)
      reads this
    {
      enabled && WrapInt64(diskBytes + size) <= maxDiskBytes
    }

    /** The whole test for disk: on, large enough, and within the limit. */
    predicate GoesToDisk(size: int)
      reads this
    {
      enabled && size >= threshold && Available(size)
    }

    method IncrementDiskFiles(size: nat)
      modifies this`diskFiles, this`diskBytes
      ensures diskFiles == old(diskFiles) + 1 && diskBytes == old(diskBytes) + size
    {
      diskFiles := diskFiles + 1;
      diskBytes := diskBytes + size;
    }

    /** Taking one file off undoes counting it in; the clamp shows only on
        counters already below what is taken. */
    method DecrementDiskFiles(size: nat)
      modifies this`diskFiles, this`diskBytes
      ensures diskFiles == Max(old(diskFiles) - 1, 0) && diskBytes == Max(old(diskBytes) - size, 0)
    {
      diskFiles := diskFiles - 1;
      if diskFiles < 0 {
        diskFiles := 0;
      }
      diskBytes := diskBytes - size;
      if diskBytes < 0 {
        diskBytes := 0;
      }
    }

    /** CreateBodyStorage; `diskWorks` is whether a file can be made and
        written.  The body always ends in an open store, at its start; it is on
        disk exactly when the test says so and the disk works; it is counted
        once, and the disk limit is kept while the sum fits 64 bits. */
    method CreateBodyStorage(data: seq<Byte>, diskWorks: bool) returns (s: Storage)
      modifies this`diskFiles, this`diskBytes, this`memoryBuffers, this`memoryBytes
      ensures fresh(Repr(s)) && StateOf(s) == Memory(data, 0, false) && (|data| <= MAX_INT64 ==> Valid(s))
      ensures s.OnDisk? <==>
                enabled && |data| >= threshold && WrapInt64(old(diskBytes) + |data|) <= maxDiskBytes && diskWorks
      ensures s.OnDisk? ==>
                diskFiles == old(diskFiles) + 1 && diskBytes == old(diskBytes) + |data|
                && memoryBuffers == old(memoryBuffers) && memoryBytes == old(memoryBytes)
      ensures s.InMemory? ==>
                diskFiles == old(diskFiles) && diskBytes == old(diskBytes)
                && memoryBuffers == old(memoryBuffers) + 1 && memoryBytes == old(memoryBytes) + |data|
      ensures old(diskBytes) <= maxDiskBytes && old(diskBytes) + |data| <= MAX_INT64 ==> diskBytes <= maxDiskBytes
    {
      if enabled && |data| >= threshold && Available(|data|) {
        if diskWorks {
          var d := new DiskStorage(data);
          IncrementDiskFiles(|data|);
          return OnDisk(d);
        }
      }
      var m := new MemoryStorage(data);
      memoryBuffers := memoryBuffers + 1;
      memoryBytes := memoryBytes + |data|;
      return InMemory(m);
    }

    /** CreateBodyStorageFromReader; `readerFails` is whether the reader fails
        after delivering the body.  The direct disk path, taken on the announced
        length, fails with the disk or the reader; a body is refused as too large
        exactly when what gets through the limit is over it; otherwise the store
        holds what got through. */
    method CreateFromReader(
      body: seq<Byte>, readerFails: bool, contentLength: int, maxBytes: int, diskWorks: bool)
      returns (r: Result<Storage, Failure>)
      requires IsInt64(maxBytes) && |body| <= MAX_INT64
      modifies this
      ensures var kept := LetThrough(body, maxBytes);
              var direct := enabled && contentLength > 0 && contentLength >= threshold
                            && WrapInt64(old(diskBytes) + contentLength) <= maxDiskBytes;
              var late := enabled && |kept| >= threshold && WrapInt64(old(diskBytes) + |kept|) <= maxDiskBytes;
              if (readerFails && |body| <= maxBytes < MAX_INT64) || (direct && !diskWorks)
              then r == Err(if direct then DiskFailed else ReadFailed)
              else if |kept| > maxBytes then r == Err(TooLarge)
              else r.Ok? && StateOf(r.value) == Memory(kept, 0, false)
                   && (r.value.OnDisk? <==> diskWorks && (direct || late))
      ensures r.Ok? ==>
                fresh(Repr(r.value)) && Valid(r.value)
                && diskFiles + memoryBuffers == old(diskFiles) + old(memoryBuffers) + 1
                && diskHits + memoryHits == old(diskHits) + old(memoryHits) + 1
                && (r.value.OnDisk? <==> diskHits == old(diskHits) + 1)
                && (r.value.OnDisk? <==> diskFiles == old(diskFiles) + 1)
                && diskBytes + memoryBytes == old(diskBytes) + old(memoryBytes) + |StateOf(r.value).data|
      ensures r.Err? ==>
                diskFiles == old(diskFiles) && diskBytes == old(diskBytes)
                && memoryBuffers == old(memoryBuffers) && memoryBytes == old(memoryBytes)
                && diskHits == old(diskHits) && memoryHits == old(memoryHits)
      ensures r.Ok? && r.value.OnDisk? ==>
                diskBytes == old(diskBytes) + |StateOf(r.value).data| && memoryBytes == old(memoryBytes)
      ensures r.Ok? && r.value.InMemory? ==>
                diskBytes == old(diskBytes) && memoryBytes == old(memoryBytes) + |StateOf(r.value).data|
      // the disk limit is kept exactly when the body stays in memory or really fits
      ensures old(diskBytes) <= maxDiskBytes && r.Ok? ==>
                var kept := LetThrough(body, maxBytes);
                var direct := contentLength > 0 && old(GoesToDisk(contentLength));
                diskBytes <= maxDiskBytes <==>
                !(diskWorks && (direct || old(GoesToDisk(|kept|)))) || old(diskBytes) + |kept| <= maxDiskBytes
      // while the sums fit 64 bits, only a direct write on a short announcement breaks it
      ensures 0 <= old(diskBytes) <= maxDiskBytes && old(diskBytes) + Max(contentLength, |body|) <= MAX_INT64
              && r.Ok? ==>
                var kept := LetThrough(body, maxBytes);
                diskBytes <= maxDiskBytes <==>
                !(contentLength > 0 && old(GoesToDisk(contentLength))) || old(diskBytes) + |kept| <= maxDiskBytes
    {
      var data := LetThrough(body, maxBytes);
      if enabled && contentLength > 0 && contentLength >= threshold && Available(contentLength) {
        if !diskWorks || FailureReached(body, maxBytes, readerFails) {
          return Err(DiskFailed);
        }
        if |data| > maxBytes {
          return Err(TooLarge);
        }
        var d := new DiskStorage(data);
        IncrementDiskFiles(|data|);
        diskHits := diskHits + 1;
        return Ok(OnDisk(d));
      }
      if FailureReached(body, maxBytes, readerFails) {
        return Err(ReadFailed);
      }
      if |data| > maxBytes {
        return Err(TooLarge);
      }
      var s := CreateBodyStorage(data, diskWorks);
      if s.InMemory? {
        memoryHits := memoryHits + 1;
      } else {
        diskHits := diskHits + 1;
      }
      return Ok(s);
    }

    /** Close of either store: the second and later calls take nothing off. */
    method CloseStorage(s: Storage)
      requires Valid(s) && this !in Repr(s)
      modifies Repr(s), this`diskFiles, this`diskBytes, this`memoryBuffers, this`memoryBytes
      ensures StateOf(s) == old(StateOf(s)).(closed := true)
      ensures old(StateOf(s).closed) ==>
                diskFiles == old(diskFiles) && diskBytes == old(diskBytes)
                && memoryBuffers == old(memoryBuffers) && memoryBytes == old(memoryBytes)
      ensures !old(StateOf(s).closed) && s.OnDisk? ==>
                diskFiles == Max(old(diskFiles) - 1, 0) && diskBytes == Max(old(diskBytes) - |StateOf(s).data|, 0)
                && memoryBuffers == old(memoryBuffers) && memoryBytes == old(memoryBytes)
      ensures !old(StateOf(s).closed) && s.InMemory? ==>
                diskFiles == old(diskFiles) && diskBytes == old(diskBytes)
                && memoryBuffers == old(memoryBuffers) - 1 && memoryBytes == old(memoryBytes) - |StateOf(s).data|
    {
      match s {
        case InMemory(m) =>
          var first := m.Close();
          if first {
            memoryBuffers := memoryBuffers - 1;
            memoryBytes := memoryBytes - |m.data|;
          }
        case OnDisk(d) =>
          var first := d.Close();
          if first {
            DecrementDiskFiles(d.size);
          }
      }
    }
  }

  /** A body announced shorter than it is goes over the disk limit: twenty bytes
      announced as ten, against a limit of ten. */
  method ShortAnnouncementOvershoots(body: seq<Byte>) returns (cache: DiskCache, s: Storage)
    requires |body| == 20
    ensures cache.maxDiskBytes == 10 && s.OnDisk? && StateOf(s).data == body && cache.diskBytes == 20
  {
    cache := new DiskCache(true, 5, 10);
    assert LetThrough(body, 100) == body;
    var r := cache.CreateFromReader(body, false, 10, 100, true);
    s := r.value;
  }
}
