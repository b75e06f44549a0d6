/**
 `validIco` and `validDib` of scripts/testbed/hard-cutover-absence.ts: an icon directory
 whose images tile the rest of the file.
 */
module Ico {
  import opened Bytes
  import opened Products
  import PngStructure

  // ----- device-independent bitmaps

  /** Bytes of one bitmap row: the bits, padded to a multiple of four bytes. */
  function RowBytes(bits: nat): nat {
    (bits + 31) / 32 * 4
  }

  lemma RowBytesIsLeast(bits: nat)
    ensures RowBytes(bits) % 4 == 0 && 8 * RowBytes(bits) >= bits
    ensures forall n: nat | n % 4 == 0 && 8 * n >= bits :: RowBytes(bits) <= n
  {
  }

  function Power2(n: nat): nat {
    if n == 0 then 1 else 2 * Power2(n - 1)
  }

  datatype Header = Header(size: nat, width: int, combinedHeight: int, planes: nat, bitCount: nat, compression: nat, colorsUsed: nat) {
    predicate Valid(directoryWidth: nat, directoryHeight: nat) {
      && size in {40, 52, 56, 108, 124}
      && width == directoryWidth && combinedHeight == 2 * directoryHeight && combinedHeight > 0
      && planes == 1 && bitCount in {1, 4, 8, 16, 24, 32} && compression in {0, 3, 6}
      && (bitCount <= 8 ==> colorsUsed <= Power2(bitCount))
    }

    function MaskBytes(): nat {
      if size == 40 && compression == 3 then 12 else if size == 40 && compression == 6 then 16 else 0
    }

    function PaletteEntries(): nat {
      if colorsUsed != 0 then colorsUsed else if bitCount <= 8 then Power2(bitCount) else 0
    }
  }

  function HeaderOf(bytes: Buffer): Header
    requires |bytes| >= 40
  {
    Header(U32LE(bytes, 0), I32LE(bytes, 4), I32LE(bytes, 8), U16LE(bytes, 12), U16LE(bytes, 14), U32LE(bytes, 16), U32LE(bytes, 32))
  }

  /** The straight-line computation of `validDib`. */
  function ValidDib(bytes: Buffer, directoryWidth: nat, directoryHeight: nat): bool {
    if |bytes| < 40 then false
    else
      var headerSize := U32LE(bytes, 0);
      if headerSize !in {40, 52, 56, 108, 124} || |bytes| < headerSize then false
      else
        var width, combinedHeight := I32LE(bytes, 4), I32LE(bytes, 8);
        var planes, bitCount := U16LE(bytes, 12), U16LE(bytes, 14);
        var compression, colorsUsed := U32LE(bytes, 16), U32LE(bytes, 32);
        if || width != directoryWidth || combinedHeight <= 0 || combinedHeight % 2 != 0
           || combinedHeight / 2 != directoryHeight || planes != 1
           || bitCount !in {1, 4, 8, 16, 24, 32} || compression !in {0, 3, 6}
           || (bitCount <= 8 && colorsUsed > Power2(bitCount))
        then false
        else
          var height := combinedHeight / 2;
          var maskBytes := if headerSize == 40 && compression == 3 then 12
                           else if headerSize == 40 && compression == 6 then 16 else 0;
          var paletteEntries := if colorsUsed != 0 then colorsUsed else if bitCount <= 8 then Power2(bitCount) else 0;
          var xorStride := (width * bitCount + 31) / 32 * 4;
          var andStride := (width + 31) / 32 * 4;
          headerSize + maskBytes + paletteEntries * 4 + (xorStride + andStride) * height == |bytes|
  }

  /** The parts of a bitmap: header, bit masks, palette, colour rows, and transparency rows. */
  datatype Dib = Dib(header: Buffer, masks: Buffer, palette: seq<Buffer>, xorRows: seq<Buffer>, andRows: seq<Buffer>) {
    predicate Valid(width: nat, height: nat) {
      && |header| >= 40
      && var h := HeaderOf(header);
         && h.size == |header| && h.Valid(width, height)
         && |masks| == h.MaskBytes()
         && |palette| == h.PaletteEntries() && (forall entry | entry in palette :: |entry| == 4)
         && |xorRows| == height && (forall row | row in xorRows :: |row| == RowBytes(width * h.bitCount))
         && |andRows| == height && (forall row | row in andRows :: |row| == RowBytes(width))
    }

    function ToBytes(): Buffer {
      header + (masks + (Concat(palette) + (Concat(xorRows) + Concat(andRows))))
    }
  }

  ghost predicate IsDib(bytes: Buffer, width: nat, height: nat) {
    exists dib: Dib :: dib.Valid(width, height) && dib.ToBytes() == bytes
  }

  lemma {:induction false} ConcatLength(rows: seq<Buffer>, size: nat)
    requires forall row | row in rows :: |row| == size
    ensures |Concat(rows)| == |rows| * size
  {
    if rows != [] {
      var n := |rows| - 1;
      assert |rows[1..]| == n && |Concat(rows)| == size + |Concat(rows[1..])|;
      ConcatLength(rows[1..], size);
      Scale(n, n, size);
    }
  }

  /** Any buffer of `count * size` bytes is `count` rows of `size` bytes. */
  lemma {:induction false} SplitRows(s: Buffer, count: nat, size: nat) returns (rows: seq<Buffer>)
    requires |s| == count * size
    ensures |rows| == count && (forall row | row in rows :: |row| == size) && Concat(rows) == s
    decreases count
  {
    rows := [];
    if count > 0 {
      assert count * size == size + (count - 1) * size;
      var tail := SplitRows(s[size..], count - 1, size);
      rows := [s[..size]] + tail;
      assert rows[1..] == tail;
    }
  }

  lemma SameHeader(bytes: Buffer, size: nat)
    requires 40 <= size <= |bytes|
    ensures HeaderOf(bytes[..size]) == HeaderOf(bytes)
  {
  }

  /** `validDib` accepts exactly the buffers made of those parts and nothing else. */
  lemma ValidDibIsExact(bytes: Buffer, width: nat, height: nat)
    ensures ValidDib(bytes, width, height) <==> IsDib(bytes, width, height)
  {
    if ValidDib(bytes, width, height) {
      DibSplits(bytes, width, height);
    }
    if IsDib(bytes, width, height) {
      var dib: Dib :| dib.Valid(width, height) && dib.ToBytes() == bytes;
      DibIsAccepted(dib, width, height);
    }
  }

  /** Where the colour and transparency rows begin. */
  function PaletteStart(h: Header): nat {
    h.size + h.MaskBytes()
  }

  function XorStart(h: Header): nat {
    PaletteStart(h) + h.PaletteEntries() * 4
  }

  function AndStart(h: Header, width: nat, height: nat): nat {
    XorStart(h) + height * RowBytes(width * h.bitCount)
  }

  lemma StrideOf(bits: nat)
    ensures RowBytes(bits) == (bits + 31) / 32 * 4
  {
  }

  lemma ValidDibMeans(bytes: Buffer, width: nat, height: nat)
    ensures ValidDib(bytes, width, height) <==>
            && |bytes| >= 40
            && var h := HeaderOf(bytes);
               h.Valid(width, height) && |bytes| == AndStart(h, width, height) + height * RowBytes(width)
  {
    hide U32LE, I32LE, U16LE, Power2, RowBytes;
    if |bytes| >= 40 {
      var h := HeaderOf(bytes);
      StrideOf(width * h.bitCount);
      StrideOf(width);
      Distribute(RowBytes(width * h.bitCount), RowBytes(width), height);
    }
  }

  lemma SplitInFive(s: Buffer, a: nat, b: nat, c: nat, d: nat)
    requires a <= b <= c <= d <= |s|
    ensures s == s[..a] + (s[a..b] + (s[b..c] + (s[c..d] + s[d..])))
  {
    assert s[c..] == s[c..d] + s[d..];
    assert s[b..] == s[b..c] + s[c..];
    assert s[a..] == s[a..b] + s[b..];
  }

  /** Five parts with given boundaries, the last three of them cut into rows. */
  lemma CutInFive(s: Buffer, a: nat, b: nat, c: nat, d: nat, palette: nat, xorSize: nat, andSize: nat, height: nat) returns (dib: Dib)
    requires a <= b <= c <= d <= |s|
    requires c - b == palette * 4 && d - c == height * xorSize && |s| - d == height * andSize
    ensures dib.header == s[..a] && dib.masks == s[a..b] && dib.ToBytes() == s
    ensures |dib.palette| == palette && forall entry | entry in dib.palette :: |entry| == 4
    ensures |dib.xorRows| == height && forall row | row in dib.xorRows :: |row| == xorSize
    ensures |dib.andRows| == height && forall row | row in dib.andRows :: |row| == andSize
  {
    hide Concat;
    var paletteRows := SplitRows(s[b..c], palette, 4);
    var xorRows := SplitRows(s[c..d], height, xorSize);
    var andRows := SplitRows(s[d..], height, andSize);
    dib := Dib(s[..a], s[a..b], paletteRows, xorRows, andRows);
    SplitInFive(s, a, b, c, d);
  }

  lemma DibSplits(bytes: Buffer, width: nat, height: nat)
    requires ValidDib(bytes, width, height)
    ensures IsDib(bytes, width, height)
  {
    hide ValidDib, HeaderOf, RowBytes, Header.MaskBytes, Header.PaletteEntries, Dib.ToBytes;
    ValidDibMeans(bytes, width, height);
    var h := HeaderOf(bytes);
    assert h.size in {40, 52, 56, 108, 124};
    SameHeader(bytes, h.size);
    var dib := CutInFive(bytes, h.size, PaletteStart(h), XorStart(h), AndStart(h, width, height),
                         h.PaletteEntries(), RowBytes(width * h.bitCount), RowBytes(width), height);
    assert dib.Valid(width, height);
  }

  lemma DibIsAccepted(dib: Dib, width: nat, height: nat)
    requires dib.Valid(width, height)
    ensures ValidDib(dib.ToBytes(), width, height)
  {
    hide ValidDib, HeaderOf, RowBytes, Header.MaskBytes, Header.PaletteEntries, Concat;
    var bytes, h := dib.ToBytes(), HeaderOf(dib.header);
    assert bytes[..h.size] == dib.header;
    SameHeader(bytes, h.size);
    ConcatLength(dib.palette, 4);
    ConcatLength(dib.xorRows, RowBytes(width * h.bitCount));
    ConcatLength(dib.andRows, RowBytes(width));
    ValidDibMeans(bytes, width, height);
  }

  // ----- ranges and tiling

  /** A half-open range of byte positions. */
  datatype Range = Range(start: nat, end: nat) {
    predicate Covers(p: nat) {
      start <= p < end
    }
  }

  /** How many of the ranges cover position `p`. */
  function Cover(ranges: seq<Range>, p: nat): nat {
    if ranges == [] then 0 else (if ranges[0].Covers(p) then 1 else 0) + Cover(ranges[1..], p)
  }

  predicate InBounds(ranges: seq<Range>, low: nat, high: nat) {
    forall r | r in ranges :: low <= r.start < r.end <= high
  }

  /** Every position of [low, high) belongs to exactly one range. */
  ghost predicate Tiles(ranges: seq<Range>, low: nat, high: nat) {
    forall p: nat | low <= p < high :: Cover(ranges, p) == 1
  }

  /** `ranges.sort` by start. */
  function Insert(r: Range, sorted: seq<Range>): (s: seq<Range>)
    ensures multiset(s) == multiset{r} + multiset(sorted)
  {
    if sorted == [] || r.start <= sorted[0].start then [r] + sorted
    else
      assert sorted == [sorted[0]] + sorted[1..];
      [sorted[0]] + Insert(r, sorted[1..])
  }

  function SortByStart(ranges: seq<Range>): (s: seq<Range>)
    ensures multiset(s) == multiset(ranges)
  {
    if ranges == [] then []
    else
      assert ranges == [ranges[0]] + ranges[1..];
      Insert(ranges[0], SortByStart(ranges[1..]))
  }

  predicate Sorted(ranges: seq<Range>) {
    forall i, j | 0 <= i < j < |ranges| :: ranges[i].start <= ranges[j].start
  }

  lemma {:induction false} InsertSorts(r: Range, sorted: seq<Range>)
    requires Sorted(sorted)
    ensures Sorted(Insert(r, sorted))
  {
    if sorted == [] || r.start <= sorted[0].start {
      PrependSorted(r, sorted);
    } else {
      var tail := Insert(r, sorted[1..]);
      InsertSorts(r, sorted[1..]);
      forall i | 0 <= i < |tail|
        ensures sorted[0].start <= tail[i].start
      {
        assert tail[i] in multiset(tail);
      }
      PrependSorted(sorted[0], tail);
    }
  }

  lemma PrependSorted(r: Range, sorted: seq<Range>)
    requires Sorted(sorted) && forall i | 0 <= i < |sorted| :: r.start <= sorted[i].start
    ensures Sorted([r] + sorted)
  {
  }

  lemma {:induction false} InsertCovers(r: Range, sorted: seq<Range>, p: nat)
    ensures Cover(Insert(r, sorted), p) == (if r.Covers(p) then 1 else 0) + Cover(sorted, p)
  {
    if sorted == [] || r.start <= sorted[0].start {
      assert ([r] + sorted)[1..] == sorted;
    } else {
      var tail := Insert(r, sorted[1..]);
      InsertCovers(r, sorted[1..], p);
      assert ([sorted[0]] + tail)[1..] == tail;
    }
  }

  lemma {:induction false} SortSorts(ranges: seq<Range>, p: nat)
    ensures Sorted(SortByStart(ranges))
    ensures Cover(SortByStart(ranges), p) == Cover(ranges, p)
  {
    if ranges != [] {
      SortSorts(ranges[1..], p);
      InsertSorts(ranges[0], SortByStart(ranges[1..]));
      InsertCovers(ranges[0], SortByStart(ranges[1..]), p);
    }
  }

  /** The final loop, as a function: every range starts where the one before it ended. */
  function Chained(ranges: seq<Range>, cursor: nat, high: nat): bool {
    if ranges == [] then cursor == high
    else ranges[0].start == cursor && Chained(ranges[1..], ranges[0].end, high)
  }

  lemma {:induction false} NothingBelow(ranges: seq<Range>, p: nat)
    requires forall r | r in ranges :: p < r.start
    ensures Cover(ranges, p) == 0
  {
    if ranges != [] {
      NothingBelow(ranges[1..], p);
    }
  }

  lemma {:induction false} CoveredByMember(ranges: seq<Range>, p: nat, r: Range)
    requires r in ranges && r.Covers(p)
    ensures Cover(ranges, p) >= 1
  {
    if r != ranges[0] {
      CoveredByMember(ranges[1..], p, r);
    }
  }

  lemma {:induction false} ChainedTiles(ranges: seq<Range>, cursor: nat, high: nat, p: nat)
    requires InBounds(ranges, cursor, high) && Chained(ranges, cursor, high)
    ensures cursor <= p < high ==> Cover(ranges, p) == 1
    ensures p < cursor ==> Cover(ranges, p) == 0
    decreases |ranges|
  {
    if ranges != [] {
      ChainedIsAbove(ranges[1..], ranges[0].end, high);
      ChainedTiles(ranges[1..], ranges[0].end, high, p);
    }
  }

  lemma {:induction false} ChainedIsAbove(ranges: seq<Range>, cursor: nat, high: nat)
    requires Chained(ranges, cursor, high) && forall r | r in ranges :: r.start < r.end <= high
    ensures InBounds(ranges, cursor, high)
    decreases |ranges|
  {
    if ranges != [] {
      assert ranges[0] in ranges;
      ChainedIsAbove(ranges[1..], ranges[0].end, high);
    }
  }

  lemma {:induction false} TilesChained(ranges: seq<Range>, cursor: nat, high: nat)
    requires Sorted(ranges) && InBounds(ranges, cursor, high) && cursor <= high && Tiles(ranges, cursor, high)
    ensures Chained(ranges, cursor, high)
    decreases |ranges|
  {
    if ranges == [] {
      assert cursor < high ==> Cover(ranges, cursor) == 1;
    } else {
      var first, tail := ranges[0], ranges[1..];
      assert first in ranges;
      assert Cover(ranges, cursor) == 1;
      if first.start > cursor {
        NothingBelow(ranges, cursor);
      }
      forall r | r in tail
        ensures first.end <= r.start
      {
        assert r in ranges && Cover(ranges, r.start) == 1;
        if r.start < first.end {
          CoveredByMember(tail, r.start, r);
        }
      }
      forall p: nat | first.end <= p < high
        ensures Cover(tail, p) == 1
      {
        assert Cover(ranges, p) == 1;
      }
      TilesChained(tail, first.end, high);
    }
  }

  /** Sorting and chaining decides tiling, in whatever order the ranges are listed. */
  lemma SortedChainIsTiling(ranges: seq<Range>, low: nat, high: nat)
    requires InBounds(ranges, low, high) && low <= high
    ensures Chained(SortByStart(ranges), low, high) <==> Tiles(ranges, low, high)
  {
    var sorted := SortByStart(ranges);
    forall p: nat
      ensures Cover(sorted, p) == Cover(ranges, p)
    {
      SortSorts(ranges, p);
    }
    SortSorts(ranges, 0);
    forall r | r in sorted
      ensures r in ranges
    {
      assert r in multiset(sorted);
    }
    if Chained(sorted, low, high) {
      forall p: nat | low <= p < high
        ensures Cover(ranges, p) == 1
      {
        ChainedTiles(sorted, low, high, p);
      }
    }
    if Tiles(ranges, low, high) {
      TilesChained(sorted, low, high);
    }
  }

  // ----- what tiling means for the listed ranges

  lemma {:induction false} CoverCountsTwo(ranges: seq<Range>, p: nat, i: nat, j: nat)
    requires i < j < |ranges| && ranges[i].Covers(p) && ranges[j].Covers(p)
    ensures Cover(ranges, p) >= 2
    decreases i
  {
    if i == 0 {
      CoveredByMember(ranges[1..], p, ranges[j]);
    } else {
      CoverCountsTwo(ranges[1..], p, i - 1, j - 1);
    }
  }

  lemma {:induction false} OwnerOf(ranges: seq<Range>, p: nat) returns (i: nat)
    requires Cover(ranges, p) >= 1
    ensures i < |ranges| && ranges[i].Covers(p)
  {
    if ranges[0].Covers(p) {
      i := 0;
    } else {
      var k := OwnerOf(ranges[1..], p);
      i := k + 1;
    }
  }

  function TotalSize(ranges: seq<Range>): int {
    if ranges == [] then 0 else ranges[0].end - ranges[0].start + TotalSize(ranges[1..])
  }

  lemma {:induction false} ChainedTotal(ranges: seq<Range>, cursor: nat, high: nat)
    requires Chained(ranges, cursor, high)
    ensures TotalSize(ranges) == high - cursor
    decreases |ranges|
  {
    if ranges != [] {
      ChainedTotal(ranges[1..], ranges[0].end, high);
    }
  }

  lemma {:induction false} InsertKeepsTotal(r: Range, sorted: seq<Range>)
    ensures TotalSize(Insert(r, sorted)) == r.end - r.start + TotalSize(sorted)
  {
    if sorted == [] || r.start <= sorted[0].start {
      assert ([r] + sorted)[1..] == sorted;
    } else {
      InsertKeepsTotal(r, sorted[1..]);
      assert ([sorted[0]] + Insert(r, sorted[1..]))[1..] == Insert(r, sorted[1..]);
    }
  }

  lemma {:induction false} SortKeepsTotal(ranges: seq<Range>)
    ensures TotalSize(SortByStart(ranges)) == TotalSize(ranges)
  {
    if ranges != [] {
      SortKeepsTotal(ranges[1..]);
      InsertKeepsTotal(ranges[0], SortByStart(ranges[1..]));
    }
  }

  predicate Owned(ranges: seq<Range>, p: nat) {
    exists i :: 0 <= i < |ranges| && ranges[i].Covers(p)
  }

  predicate Disjoint(a: Range, b: Range) {
    a.end <= b.start || b.end <= a.start
  }

  lemma TilesAreDisjoint(ranges: seq<Range>, low: nat, high: nat, i: nat, j: nat)
    requires InBounds(ranges, low, high) && Tiles(ranges, low, high) && i < j < |ranges|
    ensures Disjoint(ranges[i], ranges[j])
  {
    assert ranges[i] in ranges && ranges[j] in ranges;
    var p := if ranges[i].start < ranges[j].start then ranges[j].start else ranges[i].start;
    assert Cover(ranges, p) == 1;
    if ranges[i].Covers(p) && ranges[j].Covers(p) {
      CoverCountsTwo(ranges, p, i, j);
    }
  }

  /**
   Ranges that tile are pairwise disjoint, so no byte has two owners; every byte has an
   owner; and the sizes add up to the whole.
   */
  lemma TilingMeans(ranges: seq<Range>, low: nat, high: nat)
    requires InBounds(ranges, low, high) && low <= high && Tiles(ranges, low, high)
    ensures forall i, j | 0 <= i < j < |ranges| :: Disjoint(ranges[i], ranges[j])
    ensures forall p: nat | low <= p < high :: Owned(ranges, p)
    ensures TotalSize(ranges) == high - low
  {
    forall i, j | 0 <= i < j < |ranges|
      ensures Disjoint(ranges[i], ranges[j])
    {
      TilesAreDisjoint(ranges, low, high, i, j);
    }
    forall p: nat | low <= p < high
      ensures Owned(ranges, p)
    {
      var i := OwnerOf(ranges, p);
    }
    SortedChainIsTiling(ranges, low, high);
    ChainedTotal(SortByStart(ranges), low, high);
    SortKeepsTotal(ranges);
  }

  // ----- the directory

  /** Directory entry `k`: the image's size in pixels (zero means 256) and its range of bytes. */
  datatype Entry = Entry(width: nat, height: nat, size: nat, offset: nat) {
    function Span(): Range {
      Range(offset, offset + size)
    }
  }

  function Dimension(b: Byte): nat {
    if b == 0 then 256 else b
  }

  function EntryAt(bytes: Buffer, k: nat): Entry
    requires 6 + (k + 1) * 16 <= |bytes|
  {
    var entry := 6 + k * 16;
    Entry(Dimension(bytes[entry]), Dimension(bytes[entry + 1]), U32LE(bytes, entry + 8), U32LE(bytes, entry + 12))
  }

  function Entries(bytes: Buffer, count: nat): (entries: seq<Entry>)
    requires 6 + count * 16 <= |bytes|
    ensures |entries| == count
  {
    seq(count, k requires 0 <= k < count => EntryAt(bytes, k))
  }

  function Spans(entries: seq<Entry>): (ranges: seq<Range>)
    ensures |ranges| == |entries| && forall i :: 0 <= i < |entries| ==> ranges[i] == entries[i].Span()
  {
    seq(|entries|, i requires 0 <= i < |entries| => entries[i].Span())
  }

  /** An entry whose bytes lie past the directory and hold a PNG file or a bitmap of the listed size. */
  ghost predicate IsImage(bytes: Buffer, e: Entry, directoryEnd: nat) {
    && e.size > 0 && directoryEnd <= e.offset && e.offset + e.size <= |bytes|
    && var image := bytes[e.offset..e.offset + e.size];
       PngStructure.IsPng(image) || IsDib(image, e.width, e.height)
  }

  ghost predicate IsIco(bytes: Buffer) {
    && |bytes| >= 6
    && U16LE(bytes, 0) == 0 && U16LE(bytes, 2) == 1
    && var count := U16LE(bytes, 4);
       var directoryEnd := 6 + count * 16;
       && count != 0 && directoryEnd <= |bytes|
       && var entries := Entries(bytes, count);
          && (forall e | e in entries :: IsImage(bytes, e, directoryEnd))
          && Tiles(Spans(entries), directoryEnd, |bytes|)
  }

  /** The entry loop: stops at the first bad entry, otherwise returns the spans in listed order. */
  method ReadSpans(bytes: Buffer, count: nat) returns (ok: bool, ranges: seq<Range>)
    requires |bytes| <= MAX_SAFE_INTEGER && 6 + count * 16 <= |bytes|
    ensures ok <==> forall e | e in Entries(bytes, count) :: IsImage(bytes, e, 6 + count * 16)
    ensures ok ==> ranges == Spans(Entries(bytes, count))
  {
    hide IsImage, EntryAt;
    var directoryEnd := 6 + count * 16;
    ranges := [];
    for index := 0 to count
      invariant forall k | 0 <= k < index :: IsImage(bytes, Entries(bytes, count)[k], directoryEnd)
      invariant ranges == Spans(Entries(bytes, count))[..index]
    {
      var e := EntryAt(bytes, index);
      assert e == Entries(bytes, count)[index] && e in Entries(bytes, count);
      var good := CheckImage(bytes, e, directoryEnd);
      if !good {
        return false, ranges;
      }
      ranges := ranges + [e.Span()];
    }
    ok := true;
  }

  method CheckImage(bytes: Buffer, e: Entry, directoryEnd: nat) returns (ok: bool)
    requires |bytes| <= MAX_SAFE_INTEGER
    ensures ok <==> IsImage(bytes, e, directoryEnd)
  {
    hide PngStructure.IsPng, IsDib, ValidDib;
    if e.size == 0 || e.offset < directoryEnd || e.offset + e.size > |bytes| {
      return false;
    }
    var image := bytes[e.offset..e.offset + e.size];
    ok := PngStructure.IsStructurallyValidPng(image);
    if !ok {
      ValidDibIsExact(image, e.width, e.height);
      ok := ValidDib(image, e.width, e.height);
    }
  }

  /** The cursor loop over the sorted ranges. */
  method IsChain(ranges: seq<Range>, low: nat, high: nat) returns (ok: bool)
    ensures ok == Chained(ranges, low, high)
  {
    var cursor := low;
    for i := 0 to |ranges|
      invariant Chained(ranges, low, high) == Chained(ranges[i..], cursor, high)
    {
      if ranges[i].start != cursor {
        return false;
      }
      assert ranges[i..][1..] == ranges[i + 1..];
      cursor := ranges[i].end;
    }
    ok := cursor == high;
  }

  /** `validIco`: every image is valid, and the images tile the file past the directory. */
  method ValidIco(bytes: Buffer) returns (ok: bool)
    requires |bytes| <= MAX_SAFE_INTEGER
    ensures ok <==> IsIco(bytes)
  {
    hide IsImage, EntryAt, Tiles, Chained;
    if |bytes| < 6 {
      return false;
    }
    var count := U16LE(bytes, 4);
    if U16LE(bytes, 0) != 0 || U16LE(bytes, 2) != 1 || count == 0 {
      return false;
    }
    var directoryEnd := 6 + count * 16;
    if directoryEnd > |bytes| {
      return false;
    }
    var ranges;
    ok, ranges := ReadSpans(bytes, count);
    if !ok {
      return false;
    }
    SpansAreInBounds(bytes, count);
    SortedChainIsTiling(ranges, directoryEnd, |bytes|);
    ok := IsChain(SortByStart(ranges), directoryEnd, |bytes|);
  }

  lemma SpansAreInBounds(bytes: Buffer, count: nat)
    requires 6 + count * 16 <= |bytes|
    requires forall e | e in Entries(bytes, count) :: IsImage(bytes, e, 6 + count * 16)
    ensures InBounds(Spans(Entries(bytes, count)), 6 + count * 16, |bytes|)
  {
    hide IsDib, EntryAt;
    var entries := Entries(bytes, count);
    forall r | r in Spans(entries)
      ensures 6 + count * 16 <= r.start < r.end <= |bytes|
    {
      var i :| 0 <= i < |entries| && Spans(entries)[i] == r;
      assert entries[i] in entries;
    }
  }

  /**
   What acceptance gives the reader of an icon: in any listed order the images do not
   overlap, each byte past the directory belongs to exactly one of them, and their sizes
   sum to the rest of the file.
   */
  lemma AcceptedIcoIsTiled(bytes: Buffer)
    requires IsIco(bytes)
    ensures var count := U16LE(bytes, 4);
            var ranges := Spans(Entries(bytes, count));
            && |ranges| == count
            && (forall i, j | 0 <= i < j < count :: Disjoint(ranges[i], ranges[j]))
            && (forall p: nat | 6 + count * 16 <= p < |bytes| :: Owned(ranges, p))
            && TotalSize(ranges) == |bytes| - (6 + count * 16)
  {
    hide IsImage, EntryAt;
    var count := U16LE(bytes, 4);
    SpansAreInBounds(bytes, count);
    TilingMeans(Spans(Entries(bytes, count)), 6 + count * 16, |bytes|);
  }
}
