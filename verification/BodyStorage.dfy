/** Request bodies kept for re-reading, in memory or in a file: the two stores
    behave alike, and previews and full reads leave the position alone. */
module BodyStorage {
  import opened Wrappers
  import opened Decimal
  import opened Bytes

  datatype Failure = Closed | EndOfFile | UnexpectedEnd | BadSeek | TooLarge | DiskFailed | ReadFailed

  /** Bytes delivered, and the error that came with them. */
  datatype Delivery = Delivery(bytes: seq<Byte>, error: Option<Failure>)

  const SEEK_START := 0
  const SEEK_CURRENT := 1
  const SEEK_END := 2

  /** The position a seek asks for; None for an unknown whence, a negative
      position or one past the 64-bit range. */
  function SeekTarget(pos: nat, size: nat, offset: int, whence: int): Option<nat> {
    var target :=
      if whence == SEEK_START then offset
      else if whence == SEEK_CURRENT then pos + offset
      else if whence == SEEK_END then size + offset
      else -1;
    if 0 <= target <= MAX_INT64 then Some(target) else None
  }

  // ---------------------------------------------------------------------
  // Files
  // ---------------------------------------------------------------------

  /** An open file, only ever written whole. */
  datatype FileState = FileState(contents: seq<Byte>, offset: nat)

  /** os.File.Read into a buffer of n bytes. */
  function FileRead(f: FileState, n: nat): (FileState, Delivery) {
    if n == 0 then (f, Delivery([], None))
    else if f.offset >= |f.contents| then (f, Delivery([], Some(EndOfFile)))
    else
      var end := Min(f.offset + n, |f.contents|);
      (f.(offset := end), Delivery(f.contents[f.offset..end], None))
  }

  function FileSeek(f: FileState, offset: int, whence: int): (FileState, Result<nat, Failure>) {
    match SeekTarget(f.offset, |f.contents|, offset, whence)
    case Some(target) => (f.(offset := target), Ok(target))
    case None => (f, Err(BadSeek))
  }

  /** io.ReadFull: read until n bytes are there. */
  function ReadFull(f: FileState, n: nat): (FileState, Delivery)
    decreases n
  {
    if n == 0 then (f, Delivery([], None))
    else
      var (g, first) := FileRead(f, n);
      if first.error.Some? then (g, first)
      else if first.bytes == [] || |first.bytes| > n then (g, first)
      else
        var (h, rest) := ReadFull(g, n - |first.bytes|);
        var error := if rest.error == Some(EndOfFile) then Some(UnexpectedEnd) else rest.error;
        (h, Delivery(first.bytes + rest.bytes, error))
  }

  // ---------------------------------------------------------------------
  // The two stores, on values
  // ---------------------------------------------------------------------

  datatype Op = Read(n: nat) | Seek(offset: int, whence: int) | GetBytes | Close

  /** What an operation answers. */
  datatype Answer =
    | Delivered(d: Delivery)
    | Position(at: Result<nat, Failure>)
    | Whole(all: Result<seq<Byte>, Failure>)
    | Done

  /** memoryStorage: the data and a bytes.Reader over it. */
  datatype Memory = Memory(data: seq<Byte>, pos: nat, closed: bool)

  function MemoryStep(m: Memory, op: Op): (Memory, Answer) {
    match op
    case Read(n) =>
      if m.closed then (m, Delivered(Delivery([], Some(Failure.Closed))))
      else if m.pos >= |m.data| then (m, Delivered(Delivery([], Some(EndOfFile))))
      else
        var end := Min(m.pos + n, |m.data|);
        (m.(pos := end), Delivered(Delivery(m.data[m.pos..end], None)))
    case Seek(offset, whence) =>
      if m.closed then (m, Position(Err(Failure.Closed)))
      else (match SeekTarget(m.pos, |m.data|, offset, whence)
            case Some(target) => (m.(pos := target), Position(Ok(target)))
            case None => (m, Position(Err(BadSeek))))
    case GetBytes => (m, Whole(if m.closed then Err(Failure.Closed) else Ok(m.data)))
    case Close => (m.(closed := true), Done)
  }

  /** diskStorage: a file and the number of bytes written to it. */
  datatype Disk = Disk(file: FileState, size: nat, closed: bool)

  /** Bytes: remember the position, go to the start, read everything, go back. */
  function DiskBytes(d: Disk): (Disk, Result<seq<Byte>, Failure>) {
    if d.closed then (d, Err(Failure.Closed))
    else
      var (f0, current) := FileSeek(d.file, 0, SEEK_CURRENT);
      if current.Err? then (d.(file := f0), Err(current.error))
      else
        var (f1, start) := FileSeek(f0, 0, SEEK_START);
        if start.Err? then (d.(file := f1), Err(start.error))
        else
          var (f2, all) := ReadFull(f1, d.size);
          if all.error.Some? then (d.(file := f2), Err(all.error.value))
          else
            var (f3, back) := FileSeek(f2, current.value, SEEK_START);
            if back.Err? then (d.(file := f3), Err(back.error)) else (d.(file := f3), Ok(all.bytes))
  }

  function DiskStep(d: Disk, op: Op): (Disk, Answer) {
    match op
    case Read(n) =>
      if d.closed then (d, Delivered(Delivery([], Some(Failure.Closed))))
      else
        var (f, got) := FileRead(d.file, n);
        (d.(file := f), Delivered(got))
    case Seek(offset, whence) =>
      if d.closed then (d, Position(Err(Failure.Closed)))
      else
        var (f, at) := FileSeek(d.file, offset, whence);
        (d.(file := f), Position(at))
    case GetBytes =>
      var (after, all) := DiskBytes(d);
      (after, Whole(all))
    case Close => (d.(closed := true), Done)
  }

  function MemoryRun(m: Memory, ops: seq<Op>): seq<Answer>
    decreases |ops|
  {
    if ops == [] then [] else [MemoryStep(m, ops[0]).1] + MemoryRun(MemoryStep(m, ops[0]).0, ops[1..])
  }

  function DiskRun(d: Disk, ops: seq<Op>): seq<Answer>
    decreases |ops|
  {
    if ops == [] then [] else [DiskStep(d, ops[0]).1] + DiskRun(DiskStep(d, ops[0]).0, ops[1..])
  }

  // ---------------------------------------------------------------------
  // They agree
  // ---------------------------------------------------------------------

  predicate Representable(m: Memory) { |m.data| <= MAX_INT64 && m.pos <= MAX_INT64 }

  /** The same data at the same position. */
  predicate Alike(m: Memory, d: Disk) {
    && d.file.contents == m.data && d.file.offset == m.pos
    && d.size == |m.data| && d.closed == m.closed
  }

  lemma {:induction false} ReadFullGetsAll(f: FileState)
    requires f.offset == 0
    ensures ReadFull(f, |f.contents|) == (FileState(f.contents, |f.contents|), Delivery(f.contents, None))
  {
    var n := |f.contents|;
    if n > 0 {
      var (g, first) := FileRead(f, n);
      assert first.bytes == f.contents;
      assert ReadFull(g, 0) == (g, Delivery([], None));
      assert f.contents + [] == f.contents;
    }
  }

  /** A full read of the file returns its contents and leaves the position
      where it was. */
  lemma {:induction false} DiskBytesRestores(d: Disk)
    requires !d.closed && d.size == |d.file.contents| && d.file.offset <= MAX_INT64
    ensures DiskBytes(d) == (d, Ok(d.file.contents))
  {
    ReadFullGetsAll(d.file.(offset := 0));
    hide ReadFull;
  }

  /** One operation: the stores answer alike and stay alike, except for an empty
      read at the end of the data, where only the memory store reports the end. */
  lemma {:induction false} StepsAlike(m: Memory, d: Disk, op: Op)
    requires Representable(m) && Alike(m, d)
    ensures Representable(MemoryStep(m, op).0) && Alike(MemoryStep(m, op).0, DiskStep(d, op).0)
    ensures MemoryStep(m, op).1 == DiskStep(d, op).1 <==> !(op == Read(0) && !m.closed && m.pos >= |m.data|)
  {
    if op.GetBytes? && !d.closed { DiskBytesRestores(d); }
    hide DiskBytes;
    if op.GetBytes? && d.closed { ClosedBytes(d); }
  }

  lemma {:induction false} ClosedBytes(d: Disk)
    requires d.closed
    ensures DiskBytes(d) == (d, Err(Failure.Closed))
  {
  }

  /** On the same data, any sequence of non-empty reads, seeks, full reads and
      closes gets the same answers from a file as from memory. */
  lemma {:induction false} StoresAgree(m: Memory, d: Disk, ops: seq<Op>)
    requires Representable(m) && Alike(m, d)
    requires forall op :: op in ops ==> op != Read(0)
    ensures MemoryRun(m, ops) == DiskRun(d, ops)
    decreases |ops|
  {
    hide MemoryStep, DiskStep, Alike, Representable;
    if ops != [] {
      var op := ops[0];
      assert op in ops;
      StepsAlike(m, d, op);
      assert forall o :: o in ops[1..] ==> o in ops;
      StoresAgree(MemoryStep(m, op).0, DiskStep(d, op).0, ops[1..]);
    }
  }

  /** A read takes up where the last one stopped: two reads deliver what one
      longer read would. */
  lemma {:induction false} ReadsCompose(m: Memory, a: nat, b: nat)
    requires !m.closed && m.pos + a < |m.data| && a > 0 && b > 0
    ensures var (m1, first) := MemoryStep(m, Read(a));
            var (m2, second) := MemoryStep(m1, Read(b));
            MemoryStep(m, Read(a + b)) == (m2, Delivered(Delivery(first.d.bytes + second.d.bytes, None)))
  {
    var mid := m.pos + a;
    var end := Min(mid + b, |m.data|);
    assert m.data[m.pos..mid] + m.data[mid..end] == m.data[m.pos..end];
  }

  /** A seek counts from the start (0), the position (1) or the end (2), answers
      the position it reaches, and is refused, moving nothing, for any other
      whence, before the start or past the 64-bit range. */
  lemma {:induction false} SeekExact(m: Memory, offset: int, whence: int)
    requires !m.closed
    ensures var base := if whence == 0 then 0 else if whence == 1 then m.pos else |m.data|;
            MemoryStep(m, Seek(offset, whence)) ==
            if 0 <= whence <= 2 && 0 <= base + offset <= MAX_INT64
            then (Memory(m.data, base + offset, false), Position(Ok(base + offset)))
            else (m, Position(Err(BadSeek)))
  {
  }

  /** Seeking to any place inside and reading delivers the bytes from there, at
      most as many as asked for, and stops behind them. */
  lemma {:induction false} SeekThenRead(m: Memory, offset: int, whence: int, n: nat)
    requires !m.closed && |m.data| <= MAX_INT64 && MemoryStep(m, Seek(offset, whence)).1.at.Ok?
    ensures var (sought, answer) := MemoryStep(m, Seek(offset, whence));
            var k := answer.at.value;
            var (after, got) := MemoryStep(sought, Read(n));
            if k >= |m.data| then after == sought && got == Delivered(Delivery([], Some(EndOfFile)))
            else
              var bytes := got.d.bytes;
              && got.d.error == None && after == Memory(m.data, k + |bytes|, false)
              && |bytes| <= n && k + |bytes| <= |m.data| && (|bytes| == n || k + |bytes| == |m.data|)
              && forall j :: 0 <= j < |bytes| ==> bytes[j] == m.data[k + j]
  {
    SeekExact(m, offset, whence);
  }

  /** What a closed store answers. */
  function ClosedAnswer(op: Op): Answer {
    match op
    case Read(_) => Delivered(Delivery([], Some(Failure.Closed)))
    case Seek(_, _) => Position(Err(Failure.Closed))
    case GetBytes => Whole(Err(Failure.Closed))
    case Close => Done
  }

  /** After a close every later operation on either store answers that it is
      closed, for good. */
  lemma {:induction false} ClosedForGood(m: Memory, d: Disk, ops: seq<Op>)
    ensures var answers := MemoryRun(MemoryStep(m, Close).0, ops);
            |answers| == |ops| && forall k :: 0 <= k < |ops| ==> answers[k] == ClosedAnswer(ops[k])
    ensures MemoryRun(MemoryStep(m, Close).0, ops) == DiskRun(DiskStep(d, Close).0, ops)
    decreases |ops|
  {
    if ops != [] {
      var m1, d1 := MemoryStep(m, Close).0, DiskStep(d, Close).0;
      if ops[0].GetBytes? { ClosedBytes(d1); }
      assert MemoryStep(m1, ops[0]) == (m1, ClosedAnswer(ops[0]));
      assert DiskStep(d1, ops[0]) == (d1, ClosedAnswer(ops[0]));
      hide DiskBytes;
      ClosedForGood(m1, d1, ops[1..]);
    }
  }
}
