/** Finding an Opus file's length by scanning its Ogg pages, resynchronising one
    byte at a time. */
module OggScan {
  import opened Wrappers
  import opened Decimal
  import opened Bytes
  import BodyPreview
  import BodyStorage

  const OGGS: seq<Byte> := [0x4F, 0x67, 0x67, 0x53]
  const HEADER := 27
  const TWO_64 := 0x1_0000_0000_0000_0000
  const SAMPLE_RATE := 48000.0

  /** The capture pattern at a position. */
  predicate CaptureAt(s: seq<Byte>, i: nat) { i + 4 <= |s| && s[i..i + 4] == OGGS }

  function SumOf(segments: seq<Byte>): nat {
    if segments == [] then 0 else SumOf(segments[..|segments| - 1]) + segments[|segments| - 1]
  }

  /** The unsigned little-endian reading of some bytes. */
  function LittleEndian(b: seq<Byte>): nat {
    if b == [] then 0 else b[0] + 256 * LittleEndian(b[1..])
  }

  /** Reading an unsigned 64-bit value as a signed one. */
  function Signed(u: nat): int { if u > MAX_INT64 then u - TWO_64 else u }

  function GranuleAt(s: seq<Byte>, pos: nat): int
    requires pos + HEADER <= |s|
  {
    Signed(LittleEndian(s[pos + 6..pos + 14]))
  }

  /** Where the scan goes from a header at `pos`; None when the segment table is
      cut off. */
  function NextAt(s: seq<Byte>, pos: nat): Option<nat>
    requires pos + HEADER <= |s|
  {
    var table := pos + HEADER;
    var n := s[pos + 26];
    if table + n > |s| then None else Some(table + n + SumOf(s[table..table + n]))
  }

  datatype Found = Found(granule: int, headers: seq<nat>)

  /** The scan from a position, with the largest granule position so far: what
      it ends with and where it finds page headers. */
  function Scan(s: seq<Byte>, pos: nat, largest: int): Found
    decreases |s| - pos
  {
    if pos + HEADER > |s| then Found(largest, [])
    else if !CaptureAt(s, pos) then Scan(s, pos + 1, largest)
    else
      var granule := Max(GranuleAt(s, pos), largest);
      match NextAt(s, pos)
      case None => Found(granule, [pos])
      case Some(next) =>
        var rest := Scan(s, next, granule);
        Found(rest.granule, [pos] + rest.headers)
  }

  /** The largest granule position at some headers, and at least `least`. */
  function LargestAt(s: seq<Byte>, headers: seq<nat>, least: int): int
    requires forall h :: h in headers ==> h + HEADER <= |s|
  {
    if headers == [] then least
    else
      var h := headers[0];
      assert h in headers && forall g :: g in headers[1..] ==> g in headers;
      LargestAt(s, headers[1..], Max(GranuleAt(s, h), least))
  }

  /** On every byte sequence: the headers found lie in order inside the data,
      each starts with the capture pattern "OggS", and the result is the largest granule
      position among them. */
  lemma {:induction false} ScanFindsHeaders(s: seq<Byte>, pos: nat, largest: int)
    ensures var found := Scan(s, pos, largest);
            && (forall i :: 0 <= i < |found.headers| ==>
                  && pos <= found.headers[i] <= |s| - 27
                  && s[found.headers[i]..found.headers[i] + 4] == [0x4F, 0x67, 0x67, 0x53])
            && (forall i, j :: 0 <= i < j < |found.headers| ==> found.headers[i] < found.headers[j])
            && found.granule == LargestAt(s, found.headers, largest)
    decreases |s| - pos
  {
    hide GranuleAt, SumOf;
    if pos + HEADER > |s| {
    } else if !CaptureAt(s, pos) {
      ScanFindsHeaders(s, pos + 1, largest);
    } else {
      var granule := Max(GranuleAt(s, pos), largest);
      match NextAt(s, pos) {
        case None =>
        case Some(next) =>
          var rest := Scan(s, next, granule);
          ScanFindsHeaders(s, next, granule);
          assert ([pos] + rest.headers)[1..] == rest.headers;
      }
    }
  }

  // ---------------------------------------------------------------------
  // Pages, as section 6 of RFC 3533 lays them out
  // ---------------------------------------------------------------------

  datatype Page = Page(version: Byte, headerType: Byte, granule: int, serial: seq<Byte>, number: seq<Byte>,
                       checksum: seq<Byte>, segments: seq<Byte>, body: seq<Byte>)

  predicate WellFormed(p: Page) {
    && IsInt64(p.granule)
    && |p.serial| == 4 && |p.number| == 4 && |p.checksum| == 4
    && |p.segments| < 256 && |p.body| == SumOf(p.segments)
  }

  /** The k low bytes of a number, lowest first. */
  function ToLittleEndian(n: nat, k: nat): (b: seq<Byte>)
    ensures |b| == k
  {
    if k == 0 then [] else [n % 256] + ToLittleEndian(n / 256, k - 1)
  }

  function Unsigned(i: int): nat
    requires IsInt64(i)
  {
    if i < 0 then i + TWO_64 else i
  }

  function Front(p: Page): (b: seq<Byte>)
    requires WellFormed(p)
    ensures |b| == HEADER
  {
    OGGS + [p.version, p.headerType] + ToLittleEndian(Unsigned(p.granule), 8)
    + p.serial + p.number + p.checksum + [|p.segments|]
  }

  function Written(p: Page): (b: seq<Byte>)
    requires WellFormed(p)
    ensures |b| == HEADER + |p.segments| + |p.body|
  {
    Front(p) + p.segments + p.body
  }

  predicate AllWellFormed(pages: seq<Page>) { forall p :: p in pages ==> WellFormed(p) }

  function Stream(pages: seq<Page>): seq<Byte>
    requires AllWellFormed(pages)
  {
    if pages == [] then []
    else
      var first := pages[0];
      Written(first) + Stream(pages[1..])
  }

  /** Where each page starts. */
  function Starts(pages: seq<Page>, pos: nat): (r: seq<nat>)
    requires AllWellFormed(pages)
    ensures |r| == |pages|
  {
    if pages == [] then []
    else
      var first := pages[0];
      [pos] + Starts(pages[1..], pos + |Written(first)|)
  }

  function LargestGranule(pages: seq<Page>, least: int): int {
    if pages == [] then least else LargestGranule(pages[1..], Max(pages[0].granule, least))
  }

  function Power(k: nat): nat { if k == 0 then 1 else 256 * Power(k - 1) }

  lemma {:induction false} LittleEndianRoundTrip(n: nat, k: nat)
    requires n < Power(k)
    ensures LittleEndian(ToLittleEndian(n, k)) == n
  {
    if k > 0 {
      LittleEndianRoundTrip(n / 256, k - 1);
      assert ToLittleEndian(n, k)[1..] == ToLittleEndian(n / 256, k - 1);
    }
  }

  lemma {:induction false} PowerEight()
    ensures Power(8) == TWO_64
  {
    assert Power(2) == 65536;
    assert Power(4) == 256 * (256 * Power(2));
    assert Power(6) == 256 * (256 * Power(4));
    assert Power(8) == 256 * (256 * Power(6));
  }

  lemma {:induction false} GranuleRoundTrip(g: int)
    requires IsInt64(g)
    ensures Signed(LittleEndian(ToLittleEndian(Unsigned(g), 8))) == g
  {
    PowerEight();
    LittleEndianRoundTrip(Unsigned(g), 8);
    hide LittleEndian, ToLittleEndian, Power;
  }

  function FromFour(b0: nat, b1: nat, b2: nat, b3: nat): nat {
    b0 + 0x100 * b1 + 0x1_0000 * b2 + 0x100_0000 * b3
  }

  /** The eight bytes of a granule position count from the lowest, and the value is
      the signed one equal to them modulo 2^64. */
  lemma {:induction false} GranuleExact(b: seq<Byte>)
    requires |b| == 8
    ensures LittleEndian(b) ==
              FromFour(b[0], b[1], b[2], b[3]) + 0x1_0000_0000 * FromFour(b[4], b[5], b[6], b[7])
    ensures IsInt64(Signed(LittleEndian(b)))
    ensures Signed(LittleEndian(b)) == LittleEndian(b) || Signed(LittleEndian(b)) == LittleEndian(b) - TWO_64
  {
    FourBytes(b);
    assert b[4..][..4] == b[4..];
    FourBytes(b[4..]);
    assert LittleEndian(b[4..][4..]) == 0;
    hide LittleEndian;
  }

  lemma {:induction false} FourBytes(b: seq<Byte>)
    requires |b| >= 4
    ensures LittleEndian(b) == FromFour(b[0], b[1], b[2], b[3]) + 0x1_0000_0000 * LittleEndian(b[4..])
  {
    assert b[1..][1..] == b[2..] && b[2..][1..] == b[3..] && b[3..][1..] == b[4..];
    assert LittleEndian(b[3..]) == b[3] + 256 * LittleEndian(b[4..]);
    assert LittleEndian(b[2..]) == b[2] + 256 * LittleEndian(b[3..]);
    assert LittleEndian(b[1..]) == b[1] + 256 * LittleEndian(b[2..]);
  }

  /** The size of a body is the sum of its segments' sizes. */
  lemma {:induction false} SumExact(a: seq<Byte>, b: seq<Byte>, x: Byte)
    ensures SumOf([x]) == x && SumOf(a + b) == SumOf(a) + SumOf(b)
  {
    assert [x][..0] == [];
    if b == [] {
      assert a + b == a;
    } else {
      assert (a + b)[..|a + b| - 1] == a + b[..|b| - 1];
      SumExact(a, b[..|b| - 1], x);
    }
  }

  lemma {:induction false} FrontParts(p: Page)
    requires WellFormed(p)
    ensures Front(p)[..4] == OGGS
    ensures Front(p)[6..14] == ToLittleEndian(Unsigned(p.granule), 8)
    ensures Front(p)[26] == |p.segments|
    ensures Front(p)[4] == p.version && Front(p)[5] == p.headerType
    ensures Front(p)[14..18] == p.serial && Front(p)[18..22] == p.number && Front(p)[22..26] == p.checksum
  {
    hide ToLittleEndian;
  }

  lemma {:induction false} WrittenParts(p: Page)
    requires WellFormed(p)
    ensures var w := Written(p);
            && w[0..4] == OGGS
            && w[6..14] == ToLittleEndian(Unsigned(p.granule), 8)
            && w[26] == |p.segments|
            && w[HEADER..HEADER + |p.segments|] == p.segments
  {
    FrontParts(p);
    hide ToLittleEndian, Front, SumOf;
    var w := Written(p);
    assert w[0..4] == Front(p)[..4];
    assert w[6..14] == Front(p)[6..14];
  }

  /** A page written at `pos` is recognised, its granule position read, and the
      next position is just past it. */
  lemma {:induction false} PageRead(s: seq<Byte>, pos: nat, p: Page)
    requires WellFormed(p) && pos + |Written(p)| <= |s| && s[pos..pos + |Written(p)|] == Written(p)
    ensures CaptureAt(s, pos)
    ensures GranuleAt(s, pos) == p.granule
    ensures NextAt(s, pos) == Some(pos + |Written(p)|)
  {
    hide ToLittleEndian, LittleEndian, SumOf, Written;
    WrittenParts(p);
    GranuleRoundTrip(p.granule);
    var w := Written(p);
    WithinSlice(s, pos, w, 0, 4);
    WithinSlice(s, pos, w, 6, 14);
    TableRead(s, pos, p);
  }

  lemma {:induction false} TableRead(s: seq<Byte>, pos: nat, p: Page)
    requires WellFormed(p) && pos + |Written(p)| <= |s| && s[pos..pos + |Written(p)|] == Written(p)
    ensures NextAt(s, pos) == Some(pos + |Written(p)|)
  {
    hide ToLittleEndian, LittleEndian, SumOf, Written;
    WrittenParts(p);
    var w := Written(p);
    WithinSlice(s, pos, w, HEADER, HEADER + |p.segments|);
    assert s[pos + 26] == s[pos..pos + |w|][26];
  }

  lemma {:induction false} WithinSlice(s: seq<Byte>, pos: nat, w: seq<Byte>, lo: nat, hi: nat)
    requires lo <= hi <= |w| && pos + |w| <= |s| && s[pos..pos + |w|] == w
    ensures s[pos + lo..pos + hi] == w[lo..hi]
  {
    forall k | 0 <= k < hi - lo ensures s[pos + lo..pos + hi][k] == w[lo..hi][k] {
      assert s[pos..pos + |w|][lo + k] == w[lo + k];
    }
  }

  lemma {:induction false} NoPages()
    ensures Stream([]) == []
  {
  }

  lemma {:induction false} StreamHead(s: seq<Byte>, pos: nat, pages: seq<Page>, tail: seq<Byte>)
    requires AllWellFormed(pages) && pages != []
    requires pos <= |s| && s[pos..] == Stream(pages) + tail
    ensures var w := Written(pages[0]);
            && AllWellFormed(pages[1..]) && WellFormed(pages[0])
            && pos + |w| <= |s| && s[pos..pos + |w|] == w
            && s[pos + |w|..] == Stream(pages[1..]) + tail
  {
    hide Written, WellFormed;
    var w := Written(pages[0]);
    assert s[pos..] == w + (Stream(pages[1..]) + tail);
    assert s[pos..pos + |w|] == s[pos..][..|w|];
    assert s[pos + |w|..] == s[pos..][|w|..];
  }

  /** From the start of a concatenation of well-formed pages, with fewer than a
      header's worth of bytes after it, the scan stops at each page once. */
  lemma {:induction false} ScanPages(s: seq<Byte>, pos: nat, pages: seq<Page>, tail: seq<Byte>, largest: int)
    requires AllWellFormed(pages) && |tail| < HEADER
    requires pos <= |s| && s[pos..] == Stream(pages) + tail
    ensures Scan(s, pos, largest) == Found(LargestGranule(pages, largest), Starts(pages, pos))
    decreases |pages|
  {
    hide Written, WellFormed, GranuleAt, NextAt, Stream, CaptureAt;
    if pages == [] {
      assert |Stream(pages)| == 0 by { NoPages(); }
    } else {
      var first := pages[0];
      StreamHead(s, pos, pages, tail);
      PageRead(s, pos, first);
      ScanPages(s, pos + |Written(first)|, pages[1..], tail, Max(first.granule, largest));
    }
  }

  /** Junk holding no capture pattern is skipped byte by byte. */
  lemma {:induction false} ScanSkips(s: seq<Byte>, pos: nat, target: nat, largest: int)
    requires pos <= target <= |s|
    requires forall i: nat :: pos <= i < target ==> !CaptureAt(s, i)
    ensures Scan(s, pos, largest) == Scan(s, target, largest)
    decreases target - pos
  {
    hide GranuleAt, NextAt;
    if pos < target {
      ScanSkips(s, pos + 1, target, largest);
    }
  }

  /** A stream of well-formed pages, even after junk: every page header is
      visited exactly once, nothing else is taken for one, and the result is the
      larger of 0 and the largest granule position. */
  lemma {:induction false} StreamScanned(junk: seq<Byte>, pages: seq<Page>, tail: seq<Byte>)
    requires AllWellFormed(pages) && |tail| < HEADER
    requires forall i: nat :: i < |junk| ==> !CaptureAt(junk + Stream(pages) + tail, i)
    ensures Scan(junk + Stream(pages) + tail, 0, 0) == Found(LargestGranule(pages, 0), Starts(pages, |junk|))
  {
    hide Scan, Stream;
    var s := junk + Stream(pages) + tail;
    assert s[|junk|..] == Stream(pages) + tail;
    ScanSkips(s, 0, |junk|, 0);
    ScanPages(s, |junk|, pages, tail, 0);
  }

  // ---------------------------------------------------------------------
  // The loop
  // ---------------------------------------------------------------------

  /** io.ReadFull of the segment table: the table, or None at a short read. */
  method ReadTable(r: BodyPreview.File, n: nat) returns (table: Option<seq<Byte>>)
    requires r.offset <= |r.contents|
    modifies r
    ensures r.offset <= |r.contents|
    ensures old(r.offset) + n <= |r.contents| ==>
              table == Some(r.contents[old(r.offset)..old(r.offset) + n]) && r.offset == old(r.offset) + n
    ensures old(r.offset) + n > |r.contents| ==> table == None
  {
    var start := r.offset;
    var got: seq<Byte> := [];
    while |got| < n
      invariant |got| <= n && r.offset == start + |got| <= |r.contents| && got == r.contents[start..start + |got|]
    {
      var piece := r.Read(n - |got|);
      if piece.error.Some? {
        return None;
      }
      got := got + piece.bytes;
    }
    return Some(got);
  }

  /** The loop over the segment table. */
  method PageSize(segmentTable: seq<Byte>) returns (pageSize: nat)
    ensures pageSize == SumOf(segmentTable)
  {
    pageSize := 0;
    for i := 0 to |segmentTable|
      invariant pageSize == SumOf(segmentTable[..i])
    {
      assert segmentTable[..i + 1][..i] == segmentTable[..i];
      pageSize := pageSize + segmentTable[i];
    }
    assert segmentTable[..|segmentTable|] == segmentTable;
  }

  /** The body of the loop: read a header, and go on a byte further when it is
      none, past the page when it is one; `scanning` is false where the source
      breaks out. */
  method Turn(r: BodyPreview.File, largest: int) returns (granule: int, scanning: bool)
    requires |r.contents| <= MAX_INT64 - 0x1_0000
    modifies r
    ensures var s := r.contents;
            var pos := old(r.offset);
            if pos + HEADER > |s| then !scanning && granule == largest
            else if !CaptureAt(s, pos) then scanning && granule == largest && r.offset == pos + 1
            else granule == Max(GranuleAt(s, pos), largest)
                 && match NextAt(s, pos)
                    case None => !scanning
                    case Some(next) => scanning && r.offset == next && next > pos
  {
    hide LittleEndian, SumOf;
    ghost var pos := r.offset;
    var header := r.Read(HEADER);
    granule := largest;
    if header.error.Some? || |header.bytes| < HEADER {
      return granule, false;
    }
    assert header.bytes == r.contents[pos..pos + HEADER];
    assert header.bytes[0..4] == r.contents[pos..pos + 4];
    if header.bytes[0..4] != OGGS {
      var back := r.Seek(-26, BodyStorage.SEEK_CURRENT);
      return granule, back.Ok?;
    }
    assert header.bytes[6..14] == r.contents[pos + 6..pos + 14];
    var read := Signed(LittleEndian(header.bytes[6..14]));
    if read > granule {
      granule := read;
    }
    var table := ReadTable(r, header.bytes[26]);
    if table.None? {
      return granule, false;
    }
    var pageSize := PageSize(table.value);
    SumBounded(table.value);
    var ahead := r.Seek(pageSize, BodyStorage.SEEK_CURRENT);
    return granule, ahead.Ok?;
  }

  /** getOpusDuration over a reader that delivers what it has. */
  method OpusDuration(r: BodyPreview.File) returns (duration: real)
    requires |r.contents| <= MAX_INT64 - 0x1_0000
    modifies r
    ensures duration == Scan(r.contents, 0, 0).granule as real / 48000.0
  {
    hide Scan, CaptureAt, GranuleAt, NextAt;
    var start := r.Seek(0, BodyStorage.SEEK_START);
    var largest := 0;
    var scanning := true;
    while scanning
      invariant if scanning then Scan(r.contents, r.offset, largest).granule == Scan(r.contents, 0, 0).granule
                else largest == Scan(r.contents, 0, 0).granule
      decreases scanning, |r.contents| - r.offset
    {
      ScanUnfolds(r.contents, r.offset, largest);
      largest, scanning := Turn(r, largest);
    }
    return largest as real / SAMPLE_RATE;
  }

  lemma {:induction false} SumBounded(segments: seq<Byte>)
    ensures SumOf(segments) <= 255 * |segments|
  {
    if segments != [] { SumBounded(segments[..|segments| - 1]); }
  }

  /** One turn of the loop. */
  lemma {:induction false} ScanUnfolds(s: seq<Byte>, pos: nat, largest: int)
    ensures pos + HEADER > |s| ==> Scan(s, pos, largest).granule == largest
    ensures pos + HEADER <= |s| && !CaptureAt(s, pos) ==>
              Scan(s, pos, largest).granule == Scan(s, pos + 1, largest).granule
    ensures pos + HEADER <= |s| && CaptureAt(s, pos) ==>
              var granule := Max(GranuleAt(s, pos), largest);
              match NextAt(s, pos)
              case None => Scan(s, pos, largest).granule == granule
              case Some(next) => Scan(s, pos, largest).granule == Scan(s, next, granule).granule
  {
    hide GranuleAt, NextAt;
  }
}
