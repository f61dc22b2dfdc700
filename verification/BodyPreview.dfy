/** The body stores as objects, bounded reads and previews over either of
    them. */
module BodyPreview {
  import opened Wrappers
  import opened Decimal
  import opened Bytes
  import opened BodyStorage

  class MemoryStorage {
    const data: seq<Byte>
    var pos: nat
    var closed: bool

    ghost function View(): Memory
      reads this
    {
      Memory(data, pos, closed)
    }

    constructor (data: seq<Byte>)
      ensures View() == Memory(data, 0, false)
    {
      this.data, pos, closed := data, 0, false;
    }

    method Read(n: nat) returns (got: Delivery)
      modifies this
      ensures (View(), Delivered(got)) == MemoryStep(old(View()), Op.Read(n))
    {
      if closed {
        return Delivery([], Some(Failure.Closed));
      }
      if pos >= |data| {
        return Delivery([], Some(EndOfFile));
      }
      var start := pos;
      pos := Min(pos + n, |data|);
      return Delivery(data[start..pos], None);
    }

    method Seek(offset: int, whence: int) returns (at: Result<nat, Failure>)
      modifies this
      ensures (View(), Position(at)) == MemoryStep(old(View()), Op.Seek(offset, whence))
    {
      if closed {
        return Err(Failure.Closed);
      }
      match SeekTarget(pos, |data|, offset, whence) {
        case Some(target) =>
          pos := target;
          return Ok(target);
        case None =>
          return Err(BadSeek);
      }
    }

    method ToBytes() returns (all: Result<seq<Byte>, Failure>)
      ensures (View(), Whole(all)) == MemoryStep(View(), GetBytes)
    {
      if closed {
        return Err(Failure.Closed);
      }
      return Ok(data);
    }

    method Close() returns (first: bool)
      modifies this
      ensures View() == MemoryStep(old(View()), Op.Close).0
      ensures first == !old(closed)
    {
      first := !closed;
      closed := true;
    }
  }

  class File {
    const contents: seq<Byte>
    var offset: nat

    ghost function View(): FileState
      reads this
    {
      FileState(contents, offset)
    }

    constructor (contents: seq<Byte>)
      ensures View() == FileState(contents, 0)
    {
      this.contents, offset := contents, 0;
    }

    method Read(n: nat) returns (got: Delivery)
      modifies this
      ensures (View(), got) == FileRead(old(View()), n)
    {
      if n == 0 {
        return Delivery([], None);
      }
      if offset >= |contents| {
        return Delivery([], Some(EndOfFile));
      }
      var start := offset;
      offset := Min(offset + n, |contents|);
      return Delivery(contents[start..offset], None);
    }

    method Seek(target: int, whence: int) returns (at: Result<nat, Failure>)
      modifies this
      ensures (View(), at) == FileSeek(old(View()), target, whence)
    {
      match SeekTarget(offset, |contents|, target, whence) {
        case Some(t) =>
          offset := t;
          return Ok(t);
        case None =>
          return Err(BadSeek);
      }
    }
  }

  class DiskStorage {
    const file: File
    const size: nat
    var closed: bool

    ghost function View(): Disk
      reads this, file
    {
      Disk(file.View(), size, closed)
    }

    constructor (data: seq<Byte>)
      ensures fresh(file) && View() == Disk(FileState(data, 0), |data|, false)
    {
      file := new File(data);
      size, closed := |data|, false;
    }

    method Read(n: nat) returns (got: Delivery)
      modifies this, file
      ensures (View(), Delivered(got)) == DiskStep(old(View()), Op.Read(n))
    {
      if closed {
        return Delivery([], Some(Failure.Closed));
      }
      got := file.Read(n);
    }

    method Seek(offset: int, whence: int) returns (at: Result<nat, Failure>)
      modifies this, file
      ensures (View(), Position(at)) == DiskStep(old(View()), Op.Seek(offset, whence))
    {
      if closed {
        return Err(Failure.Closed);
      }
      at := file.Seek(offset, whence);
    }

    /** Everything from the start, by seeking there and back.  It answers as the
        step says and, on a file that holds what was written, returns exactly
        that and puts the position back. */
    method ToBytes() returns (all: Result<seq<Byte>, Failure>)
      requires size == |file.contents| && file.offset <= MAX_INT64
      modifies this, file
      ensures (View(), Whole(all)) == DiskStep(old(View()), GetBytes)
      ensures View() == old(View())
    {
      hide ReadFull, DiskBytes;
      if closed {
        ClosedBytes(View());
        return Err(Failure.Closed);
      }
      DiskBytesRestores(View());
      var current := file.Seek(0, SEEK_CURRENT);
      if current.Err? {
        return Err(BadSeek);
      }
      var start := file.Seek(0, SEEK_START);
      if start.Err? {
        return Err(BadSeek);
      }
      var got: seq<Byte> := [];
      while |got| < size
        invariant !closed && file.offset == |got| <= size && got == file.contents[..|got|]
      {
        var piece := file.Read(size - |got|);
        if piece.error.Some? {
          return Err(UnexpectedEnd);
        }
        got := got + piece.bytes;
      }
      assert got == file.contents;
      var back := file.Seek(current.value, SEEK_START);
      if back.Err? {
        return Err(BadSeek);
      }
      return Ok(got);
    }

    method Close() returns (first: bool)
      modifies this, file
      ensures View() == DiskStep(old(View()), Op.Close).0
      ensures first == !old(closed)
    {
      first := !closed;
      closed := true;
    }
  }

  // ---------------------------------------------------------------------
  // Either store
  // ---------------------------------------------------------------------

  /** The BodyStorage interface's values. */
  datatype Storage = InMemory(m: MemoryStorage) | OnDisk(d: DiskStorage)

  ghost function Repr(s: Storage): set<object> {
    match s
    case InMemory(m) => {m}
    case OnDisk(d) => {d, d.file}
  }

  /** What a store holds, whichever it is. */
  ghost function StateOf(s: Storage): Memory
    reads Repr(s)
  {
    match s
    case InMemory(m) => m.View()
    case OnDisk(d) => Memory(d.file.contents, d.file.offset, d.closed)
  }

  ghost predicate Valid(s: Storage)
    reads Repr(s)
  {
    Representable(StateOf(s)) && (s.OnDisk? ==> s.d.size == |s.d.file.contents|)
  }

  method Read(s: Storage, n: nat) returns (got: Delivery)
    requires Valid(s) && n > 0
    modifies Repr(s)
    ensures Valid(s) && (StateOf(s), Delivered(got)) == MemoryStep(old(StateOf(s)), Op.Read(n))
  {
    match s {
      case InMemory(m) => got := m.Read(n);
      case OnDisk(d) =>
        StepsAlike(StateOf(s), d.View(), Op.Read(n));
        got := d.Read(n);
    }
  }

  method Seek(s: Storage, offset: int, whence: int) returns (at: Result<nat, Failure>)
    requires Valid(s)
    modifies Repr(s)
    ensures Valid(s) && (StateOf(s), Position(at)) == MemoryStep(old(StateOf(s)), Op.Seek(offset, whence))
  {
    match s {
      case InMemory(m) => at := m.Seek(offset, whence);
      case OnDisk(d) =>
        StepsAlike(StateOf(s), d.View(), Op.Seek(offset, whence));
        at := d.Seek(offset, whence);
    }
  }

  // ---------------------------------------------------------------------
  // Bounded reads and previews
  // ---------------------------------------------------------------------

  function Rest(st: Memory): seq<Byte> { if st.pos <= |st.data| then st.data[st.pos..] else [] }

  /** What one read takes off the rest. */
  lemma {:induction false} ReadTakes(st: Memory, n: nat)
    requires n > 0
    ensures var (after, answer) := MemoryStep(st, Op.Read(n));
            && after.data == st.data && after.closed == st.closed && answer.Delivered?
            && (st.closed ==> answer.d.error == Some(Failure.Closed))
            && (!st.closed && Rest(st) == [] ==> answer.d.error == Some(EndOfFile))
            && (!st.closed && Rest(st) != [] ==>
                  var k := Min(n, |Rest(st)|);
                  answer.d == Delivery(Rest(st)[..k], None) && Rest(after) == Rest(st)[k..])
  {
  }

  /** io.ReadAll over an io.LimitReader: whatever room each read finds in the
      buffer, the bytes from the position on, up to the limit. */
  method ReadAllLimited(s: Storage, limit: int) returns (data: seq<Byte>, error: Option<Failure>)
    requires Valid(s)
    modifies Repr(s)
    ensures Valid(s) && StateOf(s).data == old(StateOf(s).data) && StateOf(s).closed == old(StateOf(s).closed)
    ensures var rest := old(Rest(StateOf(s)));
            if limit > 0 && old(StateOf(s).closed) then error == Some(Failure.Closed)
            else error == None && data == rest[..Min(Max(limit, 0), |rest|)]
  {
    data, error := [], None;
    var remaining := limit;
    ghost var rest := Rest(StateOf(s));
    ghost var contents := StateOf(s).data;
    ghost var shut := StateOf(s).closed;
    hide MemoryStep, Rest, StateOf, Valid;
    while remaining > 0
      invariant Valid(s) && error == None && remaining == limit - |data|
      invariant StateOf(s).data == contents && StateOf(s).closed == shut
      invariant |data| <= |rest| && data == rest[..|data|] && Rest(StateOf(s)) == rest[|data|..]
      invariant shut ==> data == []
      invariant if limit > 0 then |data| <= limit else data == []
      decreases remaining
    {
      var room: int :| room > 0;
      ReadTakes(StateOf(s), Min(room, remaining));
      var got := Read(s, Min(room, remaining));
      if got.error == Some(EndOfFile) {
        return;
      }
      if got.error.Some? {
        return [], got.error;
      }
      data := data + got.bytes;
      remaining := remaining - |got.bytes|;
    }
  }

  /** What a bounded read of the given bytes yields: when the bound is the
      largest 64-bit number, adding one to it wraps and nothing is read. */
  function LimitedOf(rest: seq<Byte>, maxBytes: int): (seq<Byte>, bool) {
    var bound := Max(maxBytes, 1);
    if bound == MAX_INT64 then ([], false) else (rest[..Min(bound, |rest|)], |rest| > bound)
  }

  method ReadLimitedBytes(s: Storage, maxBytes: int) returns (data: seq<Byte>, truncated: bool, error: Option<Failure>)
    requires Valid(s) && IsInt64(maxBytes)
    modifies Repr(s)
    ensures Valid(s) && StateOf(s).data == old(StateOf(s).data) && StateOf(s).closed == old(StateOf(s).closed)
    ensures !old(StateOf(s).closed) ==> error == None && (data, truncated) == LimitedOf(old(Rest(StateOf(s))), maxBytes)
  {
    var bound := if maxBytes <= 0 then 1 else maxBytes;
    data, error := ReadAllLimited(s, WrapInt64(bound + 1));
    truncated := false;
    hide StateOf, Valid;
    ghost var rest := old(Rest(StateOf(s)));
    assert 0 < bound < |rest| ==> rest[..Min(bound + 1, |rest|)][..bound] == rest[..bound];
    if error.None? && |data| > bound {
      data, truncated := data[..bound], true;
    }
  }

  /** ReadBodyStoragePreview: from the start, and back to where the store was. */
  method ReadBodyStoragePreview(s: Storage, maxBytes: int)
    returns (preview: seq<Byte>, truncated: bool, error: Option<Failure>)
    requires Valid(s) && IsInt64(maxBytes)
    modifies Repr(s)
    ensures Valid(s) && StateOf(s) == old(StateOf(s))
    ensures if old(StateOf(s).closed) then error == Some(Failure.Closed)
            else error == None && (preview, truncated) == LimitedOf(StateOf(s).data, maxBytes)
  {
    preview, truncated, error := [], false, None;
    var current := Seek(s, 0, SEEK_CURRENT);
    if current.Err? {
      return [], false, Some(current.error);
    }
    var start := Seek(s, 0, SEEK_START);
    if start.Err? {
      return [], false, Some(BadSeek);
    }
    preview, truncated, error := ReadLimitedBytes(s, maxBytes);
    var back := Seek(s, current.value, SEEK_START);
    if back.Err? {
      return [], false, Some(BadSeek);
    }
  }

  /** The preview is the first min(max(maxBytes, 1), size) bytes, flagged exactly
      when more remain, for every bound but the largest one, which works only on
      an empty body. */
  lemma {:induction false} PreviewExact(data: seq<Byte>, maxBytes: int)
    requires IsInt64(maxBytes) && |data| <= MAX_INT64
    ensures var bound := Max(maxBytes, 1);
            LimitedOf(data, maxBytes) == (data[..Min(bound, |data|)], |data| > bound) <==>
            maxBytes != MAX_INT64 || data == []
  {
    if maxBytes == MAX_INT64 {
      assert data[..Min(maxBytes, |data|)] == data;
    }
  }
}
