/**
 The pixel inspection of scripts/testbed/display-evidence.ts. Scanlines are unfiltered in
 place; section 9 of the W3C PNG Specification (Second Edition) says what filtering is.
 */
module DisplayEvidence {
  import opened Bytes
  import opened PngStructure
  import opened Products
  import opened Wrappers

  // ----- the filters

  type Row = Buffer

  function Abs(x: int): nat {
    if x < 0 then -x else x
  }

  function Paeth(left: Byte, above: Byte, upperLeft: Byte): Byte {
    var prediction := left + above - upperLeft;
    var leftDistance := Abs(prediction - left);
    var aboveDistance := Abs(prediction - above);
    var upperLeftDistance := Abs(prediction - upperLeft);
    if leftDistance <= aboveDistance && leftDistance <= upperLeftDistance then left
    else if aboveDistance <= upperLeftDistance then above
    else upperLeft
  }

  function Predictor(filter: Byte, left: Byte, above: Byte, upperLeft: Byte): Byte {
    if filter == 1 then left
    else if filter == 2 then above
    else if filter == 3 then (left + above) / 2
    else if filter == 4 then Paeth(left, above, upperLeft)
    else 0
  }

  /** The byte one pixel to the left, or zero at the edge. */
  function LeftOf(row: Row, i: nat, channels: nat): Byte
    requires i <= |row| && channels > 0
  {
    if i >= channels then row[i - channels] else 0
  }

  function FilterByte(filter: Byte, channels: nat, previous: Row, row: Row, i: nat): Byte
    requires i < |row| == |previous| && channels > 0
  {
    (row[i] - Predictor(filter, LeftOf(row, i, channels), previous[i], LeftOf(previous, i, channels))) % 256
  }

  /** Filtering, as the encoder does it: every byte minus its prediction from the original bytes. */
  function FilterRow(filter: Byte, channels: nat, previous: Row, row: Row): (line: Row)
    requires |row| == |previous| && channels > 0
    ensures |line| == |row|
  {
    seq(|row|, i requires 0 <= i < |row| => FilterByte(filter, channels, previous, row, i))
  }

  /** One scanline of the encoder's choice: a filter type and the original bytes. */
  datatype Scanline = Scanline(filter: Byte, row: Row)

  predicate IsImage(lines: seq<Scanline>, stride: nat) {
    forall l | l in lines :: l.filter <= 4 && |l.row| == stride
  }

  function Zeros(n: nat): (row: Row)
    ensures |row| == n && forall i :: 0 <= i < n ==> row[i] == 0
  {
    seq(n, _ => 0)
  }

  function PreviousRow(lines: seq<Scanline>, stride: nat): (row: Row)
    requires IsImage(lines, stride)
    ensures |row| == stride
  {
    if lines == [] then Zeros(stride) else lines[|lines| - 1].row
  }

  /** The filtered image data: for each scanline its filter type and its filtered bytes. */
  function Filtered(lines: seq<Scanline>, stride: nat, channels: nat): Buffer
    requires IsImage(lines, stride) && channels > 0
  {
    if lines == [] then []
    else
      var before, last := lines[..|lines| - 1], lines[|lines| - 1];
      Filtered(before, stride, channels)
      + ([last.filter] + FilterRow(last.filter, channels, PreviousRow(before, stride), last.row))
  }

  /** The Paeth choice is the neighbour nearest to the linear prediction; ties go to left, then above. */
  lemma PaethIsNearest(left: Byte, above: Byte, upperLeft: Byte)
    ensures var p := left + above - upperLeft;
            var choice := Paeth(left, above, upperLeft);
            && choice in {left, above, upperLeft}
            && Abs(p - choice) <= Abs(p - left)
            && Abs(p - choice) <= Abs(p - above)
            && Abs(p - choice) <= Abs(p - upperLeft)
            && (Abs(p - choice) == Abs(p - left) ==> choice == left)
            && (Abs(p - choice) == Abs(p - above) ==> choice == above || choice == left)
  {
  }

  lemma FilterByteIsLocal(filter: Byte, channels: nat, previous: Row, a: Row, b: Row, k: nat)
    requires |a| == |b| == |previous| && channels > 0 && k < |a|
    requires a[k] == b[k] && (k >= channels ==> a[k - channels] == b[k - channels])
    ensures FilterByte(filter, channels, previous, a, k) == FilterByte(filter, channels, previous, b, k)
  {
  }

  /** The unfilter loop, in place: afterwards, filtering the scanline gives back what it held. */
  method UnfilterScanline(scanline: array<Byte>, previous: Row, filter: Byte, channels: nat) returns (supported: bool)
    requires scanline.Length == |previous| > 0 && channels > 0
    modifies scanline
    ensures supported <==> filter <= 4
    ensures supported ==> FilterRow(filter, channels, previous, scanline[..]) == old(scanline[..])
  {
    hide Paeth, FilterByte;
    ghost var line := scanline[..];
    var index := 0;
    while index < scanline.Length
      invariant 0 <= index <= scanline.Length
      invariant index > 0 ==> filter <= 4
      invariant forall k :: index <= k < scanline.Length ==> scanline[k] == line[k]
      invariant forall k :: 0 <= k < index ==> FilterByte(filter, channels, previous, scanline[..], k) == line[k]
    {
      var left := if index >= channels then scanline[index - channels] else 0;
      var above := previous[index];
      var upperLeft := if index >= channels then previous[index - channels] else 0;
      ghost var before := scanline[..];
      if filter == 1 {
        scanline[index] := (scanline[index] as int + left) % 256;
      } else if filter == 2 {
        scanline[index] := (scanline[index] as int + above) % 256;
      } else if filter == 3 {
        scanline[index] := (scanline[index] as int + (left as int + above) / 2) % 256;
      } else if filter == 4 {
        scanline[index] := (scanline[index] as int + Paeth(left, above, upperLeft)) % 256;
      } else if filter != 0 {
        return false;
      }
      Unfiltered(filter, channels, previous, before, scanline[..], index);
      forall k | 0 <= k < index
        ensures FilterByte(filter, channels, previous, scanline[..], k) == line[k]
      {
        FilterByteIsLocal(filter, channels, previous, before, scanline[..], k);
      }
      index := index + 1;
    }
    return true;
  }

  lemma Unfiltered(filter: Byte, channels: nat, previous: Row, before: Row, after: Row, i: nat)
    requires |before| == |after| == |previous| && channels > 0 && i < |before|
    requires forall k :: 0 <= k < |before| && k != i ==> after[k] == before[k]
    requires after[i] == (before[i] as int + Predictor(filter, LeftOf(before, i, channels), previous[i], LeftOf(previous, i, channels))) % 256
    ensures FilterByte(filter, channels, previous, after, i) == before[i]
  {
    Undone(before[i], Predictor(filter, LeftOf(before, i, channels), previous[i], LeftOf(previous, i, channels)));
  }

  lemma Undone(x: Byte, p: Byte)
    ensures ((x as int + p) % 256 - p) % 256 == x
  {
  }

  /** Reconstruction by filter type (section 9.2): the original byte, from the filtered one and the original neighbours. */
  lemma ReconstructedByType(filter: Byte, channels: nat, previous: Row, row: Row, i: nat)
    requires |row| == |previous| && channels > 0 && i < |row| && filter <= 4
    ensures var x: int := FilterRow(filter, channels, previous, row)[i];
            var left: int := if i < channels then 0 else row[i - channels];
            var above: int := previous[i];
            && (filter == 0 ==> row[i] == x)
            && (filter == 1 ==> row[i] == (x + left) % 256)
            && (filter == 2 ==> row[i] == (x + above) % 256)
            && (filter == 3 ==> row[i] == (x + (left + above) / 2) % 256)
            && (filter == 4 ==> row[i] == (x + Paeth(left, above, if i < channels then 0 else previous[i - channels])) % 256)
  {
    hide Paeth;
    var left, above, upperLeft := LeftOf(row, i, channels), previous[i], LeftOf(previous, i, channels);
    assert FilterRow(filter, channels, previous, row)[i] == FilterByte(filter, channels, previous, row, i);
    Redone(row[i], Predictor(filter, left, above, upperLeft));
  }

  lemma Redone(x: Byte, p: Byte)
    ensures ((x as int - p) % 256 + p) % 256 == x
  {
  }

  /** The row is one pixel, over and over. */
  predicate RepeatsPixel(row: Row, channels: nat) {
    forall k | channels <= k < |row| :: row[k] == row[k - channels]
  }

  /** Known answers: a repeated row under type 2, one of a repeated pixel under type 1, and both at once under type 3. */
  lemma RepetitionFiltersToZero(channels: nat, previous: Row, row: Row, k: nat)
    requires channels > 0 && |previous| == |row| && k < |row|
    ensures FilterRow(2, channels, row, row)[k] == 0
    ensures RepeatsPixel(row, channels) ==>
              && FilterRow(1, channels, previous, row)[k] == (if k < channels then row[k] else 0)
              && FilterRow(3, channels, row, row)[k] == if k < channels then (row[k] as int + 1) / 2 else 0
  {
    assert FilterRow(2, channels, row, row)[k] == FilterByte(2, channels, row, row, k);
    assert FilterRow(1, channels, previous, row)[k] == FilterByte(1, channels, previous, row, k);
    assert FilterRow(3, channels, row, row)[k] == FilterByte(3, channels, row, row, k);
  }

  /** Filtering loses nothing: a filtered scanline comes from one original only. */
  lemma FilterRowIsInjective(filter: Byte, channels: nat, previous: Row, a: Row, b: Row)
    requires |a| == |b| == |previous| && channels > 0
    requires FilterRow(filter, channels, previous, a) == FilterRow(filter, channels, previous, b)
    ensures a == b
  {
    var i := 0;
    while i < |a|
      invariant 0 <= i <= |a|
      invariant forall k :: 0 <= k < i ==> a[k] == b[k]
    {
      assert FilterRow(filter, channels, previous, a)[i] == FilterByte(filter, channels, previous, a, i);
      assert FilterRow(filter, channels, previous, b)[i] == FilterByte(filter, channels, previous, b, i);
      SameDifference(a[i], b[i], Predictor(filter, LeftOf(a, i, channels), previous[i], LeftOf(previous, i, channels)));
      i := i + 1;
    }
  }

  lemma SameDifference(x: Byte, y: Byte, p: Byte)
    requires (x - p) % 256 == (y - p) % 256
    ensures x == y
  {
  }

  lemma {:induction false} FilteredLength(lines: seq<Scanline>, stride: nat, channels: nat)
    requires IsImage(lines, stride) && channels > 0
    ensures |Filtered(lines, stride, channels)| == |lines| * (stride + 1)
  {
    if lines != [] {
      var n := |lines| - 1;
      hide FilterRow;
      FilteredLength(lines[..n], stride, channels);
      Scale(n, n, stride + 1);
    }
  }

  lemma SameParts(x: Buffer, y: Buffer, p: Byte, q: Byte, u: Buffer, v: Buffer)
    requires |x| == |y| && x + ([p] + u) == y + ([q] + v)
    ensures x == y && p == q && u == v
  {
    var s := x + ([p] + u);
    assert s[..|x|] == x && s[..|y|] == y && s[|x|] == p && s[|y|] == q && s[|x| + 1..] == u && s[|y| + 1..] == v;
  }

  lemma FilteredSplits(lines: seq<Scanline>, stride: nat, channels: nat)
    requires IsImage(lines, stride) && channels > 0 && lines != []
    ensures var n := |lines| - 1;
            && IsImage(lines[..n], stride) && |lines[n].row| == stride && lines == lines[..n] + [lines[n]]
            && Filtered(lines, stride, channels)
               == Filtered(lines[..n], stride, channels)
                  + ([lines[n].filter] + FilterRow(lines[n].filter, channels, PreviousRow(lines[..n], stride), lines[n].row))
  {
    hide FilterRow;
  }

  /** The filtered data determines both the filter choices and the image. */
  lemma {:induction false} FilteredIsInjective(a: seq<Scanline>, b: seq<Scanline>, stride: nat, channels: nat)
    requires IsImage(a, stride) && IsImage(b, stride) && channels > 0 && |a| == |b|
    requires Filtered(a, stride, channels) == Filtered(b, stride, channels)
    ensures a == b
    decreases |a|
  {
    if a != [] {
      hide FilterRow, Filtered, IsImage, PreviousRow;
      var n := |a| - 1;
      FilteredSplits(a, stride, channels);
      FilteredSplits(b, stride, channels);
      FilteredLength(a[..n], stride, channels);
      FilteredLength(b[..n], stride, channels);
      SameParts(Filtered(a[..n], stride, channels), Filtered(b[..n], stride, channels), a[n].filter, b[n].filter,
                FilterRow(a[n].filter, channels, PreviousRow(a[..n], stride), a[n].row),
                FilterRow(b[n].filter, channels, PreviousRow(b[..n], stride), b[n].row));
      FilteredIsInjective(a[..n], b[..n], stride, channels);
      var previous := PreviousRow(a[..n], stride);
      FilterRowIsInjective(a[n].filter, channels, previous, a[n].row, b[n].row);
    }
  }

  // ----- plain counts over an image

  type Pixel = Buffer

  function PixelAt(row: Row, column: nat, channels: nat): Pixel
    requires (column + 1) * channels <= |row|
  {
    row[column * channels..(column + 1) * channels]
  }

  /** A challenge colour and the region of the capture it is searched in. */
  datatype Challenge = Challenge(colorRgb: seq<int>, x: int, y: int, width: int, height: int) {
    predicate Valid(imageWidth: nat, imageHeight: nat) {
      && |colorRgb| == 3 && x >= 0 && y >= 0 && width >= 1 && height >= 1
      && x + width <= imageWidth && y + height <= imageHeight
    }
  }

  predicate IsVisible(pixel: Pixel, channels: nat)
    requires |pixel| == channels
  {
    channels == 3 || (channels > 3 && pixel[3] > 0)
  }

  predicate IsMatch(challenge: Option<Challenge>, r: nat, c: nat, pixel: Pixel, channels: nat)
    requires |pixel| == channels >= 3
  {
    && challenge.Some?
    && var ch := challenge.value;
       && ch.x <= c < ch.x + ch.width && ch.y <= r < ch.y + ch.height
       && |ch.colorRgb| == 3
       && pixel[0] == ch.colorRgb[0] && pixel[1] == ch.colorRgb[1] && pixel[2] == ch.colorRgb[2]
       && IsVisible(pixel, channels)
  }

  /** What is counted: pixels, visible pixels, pixels matching the challenge, and the set of pixel values. */
  datatype Counts = Counts(visible: nat, matching: nat, values: set<Pixel>)

  const NO_PIXELS := Counts(0, 0, {})

  function CountPixel(n: Counts, challenge: Option<Challenge>, r: nat, c: nat, pixel: Pixel, channels: nat): Counts
    requires |pixel| == channels >= 3
  {
    Counts(n.visible + (if IsVisible(pixel, channels) then 1 else 0),
           n.matching + (if IsMatch(challenge, r, c, pixel, channels) then 1 else 0),
           n.values + {pixel})
  }

  /** The first `columns` pixels of row `r`, counted on top of `n`. */
  function CountRow(n: Counts, challenge: Option<Challenge>, r: nat, row: Row, columns: nat, channels: nat): Counts
    requires columns * channels <= |row| && channels >= 3
  {
    if columns == 0 then n
    else
      Scale(columns - 1, columns, channels);
      CountPixel(CountRow(n, challenge, r, row, columns - 1, channels),
                 challenge, r, columns - 1, PixelAt(row, columns - 1, channels), channels)
  }

  function CountImage(challenge: Option<Challenge>, image: seq<Row>, width: nat, channels: nat): Counts
    requires channels >= 3 && forall row | row in image :: |row| == width * channels
  {
    if image == [] then NO_PIXELS
    else
      var n := |image| - 1;
      CountRow(CountImage(challenge, image[..n], width, channels), challenge, n, image[n], width, channels)
  }

  function Rows(lines: seq<Scanline>): (image: seq<Row>)
    ensures |image| == |lines| && forall i :: 0 <= i < |lines| ==> image[i] == lines[i].row
  {
    seq(|lines|, i requires 0 <= i < |lines| => lines[i].row)
  }

  // ----- the pixel loops

  method CountScanline(row: Row, r: nat, width: nat, channels: nat, challenge: Option<Challenge>, before: Counts)
    returns (after: Counts)
    requires |row| == width * channels && channels in {3, 4}
    requires challenge.Some? ==> |challenge.value.colorRgb| == 3
    ensures after == CountRow(before, challenge, r, row, width, channels)
  {
    var visible, matching, values := before.visible, before.matching, before.values;
    for column := 0 to width
      invariant column * channels <= |row|
      invariant Counts(visible, matching, values) == CountRow(before, challenge, r, row, column, channels)
    {
      Scale(column + 1, width, channels);
      var pixel := PixelAt(row, column, channels);
      if channels == 3 || pixel[3] > 0 {
        visible := visible + 1;
      }
      if && challenge.Some?
         && column >= challenge.value.x && column < challenge.value.x + challenge.value.width
         && r >= challenge.value.y && r < challenge.value.y + challenge.value.height
         && pixel[0] == challenge.value.colorRgb[0]
         && pixel[1] == challenge.value.colorRgb[1]
         && pixel[2] == challenge.value.colorRgb[2]
         && (channels == 3 || pixel[3] > 0)
      {
        matching := matching + 1;
      }
      values := values + {pixel};
    }
    after := Counts(visible, matching, values);
  }

  /** Scanline `r` of raw data that has `stride` bytes a row: its filter type, then its bytes. */
  function FilterTypeAt(raw: Buffer, r: nat, stride: nat): Byte
    requires (r + 1) * (stride + 1) <= |raw|
  {
    Scale(r, r + 1, stride + 1);
    raw[r * (stride + 1)]
  }

  function LineAt(raw: Buffer, r: nat, stride: nat): (line: Row)
    requires (r + 1) * (stride + 1) <= |raw|
    ensures |line| == stride
  {
    Scale(r, r + 1, stride + 1);
    raw[r * (stride + 1) + 1..(r + 1) * (stride + 1)]
  }

  predicate SupportedFilters(raw: Buffer, rows: nat, stride: nat)
    requires rows * (stride + 1) <= |raw|
  {
    rows == 0 ||
    (Scale(rows - 1, rows, stride + 1);
     SupportedFilters(raw, rows - 1, stride) && FilterTypeAt(raw, rows - 1, stride) <= 4)
  }

  lemma {:induction false} UnsupportedFilterStays(raw: Buffer, rows: nat, height: nat, stride: nat)
    requires rows <= height && height * (stride + 1) <= |raw|
    requires (Scale(rows, height, stride + 1); !SupportedFilters(raw, rows, stride))
    ensures !SupportedFilters(raw, height, stride)
    decreases height - rows
  {
    if rows < height {
      Scale(rows + 1, height, stride + 1);
      UnsupportedFilterStays(raw, rows + 1, height, stride);
    }
  }

  lemma CutLine(raw: Buffer, start: nat, end: nat)
    requires start < end <= |raw|
    ensures raw[..end] == raw[..start] + ([raw[start]] + raw[start + 1..end])
  {
  }

  lemma NextLine(raw: Buffer, r: nat, stride: nat)
    requires (r + 1) * (stride + 1) <= |raw|
    ensures r * (stride + 1) <= |raw|
    ensures raw[..(r + 1) * (stride + 1)]
         == raw[..r * (stride + 1)] + ([FilterTypeAt(raw, r, stride)] + LineAt(raw, r, stride))
  {
    Scale(r, r + 1, stride + 1);
    CutLine(raw, r * (stride + 1), (r + 1) * (stride + 1));
  }

  lemma AppendLine(lines: seq<Scanline>, line: Scanline, stride: nat, width: nat, channels: nat, challenge: Option<Challenge>)
    requires IsImage(lines, stride) && channels >= 3 && line.filter <= 4 && |line.row| == stride == width * channels
    ensures IsImage(lines + [line], stride)
    ensures PreviousRow(lines + [line], stride) == line.row
    ensures Filtered(lines + [line], stride, channels)
         == Filtered(lines, stride, channels)
            + ([line.filter] + FilterRow(line.filter, channels, PreviousRow(lines, stride), line.row))
    ensures forall row | row in Rows(lines + [line]) :: |row| == stride
    ensures CountImage(challenge, Rows(lines + [line]), width, channels)
         == CountRow(CountImage(challenge, Rows(lines), width, channels), challenge, |lines|, line.row, width, channels)
  {
    hide FilterRow, Filtered, CountImage;
    FilteredAppend(lines, line, stride, channels);
    CountAppend(Rows(lines), line.row, width, channels, challenge);
    assert Rows(lines + [line]) == Rows(lines) + [line.row];
  }

  lemma FilteredAppend(lines: seq<Scanline>, line: Scanline, stride: nat, channels: nat)
    requires IsImage(lines, stride) && channels > 0 && line.filter <= 4 && |line.row| == stride
    ensures IsImage(lines + [line], stride)
    ensures Filtered(lines + [line], stride, channels)
         == Filtered(lines, stride, channels)
            + ([line.filter] + FilterRow(line.filter, channels, PreviousRow(lines, stride), line.row))
  {
    hide FilterRow;
    assert (lines + [line])[..|lines|] == lines;
  }

  lemma CountAppend(rows: seq<Row>, row: Row, width: nat, channels: nat, challenge: Option<Challenge>)
    requires channels >= 3 && |row| == width * channels
    requires forall r | r in rows :: |r| == width * channels
    ensures CountImage(challenge, rows + [row], width, channels)
         == CountRow(CountImage(challenge, rows, width, channels), challenge, |rows|, row, width, channels)
  {
    hide CountRow;
    assert (rows + [row])[..|rows|] == rows;
  }

  /**
   The row loop. It stops at the first unsupported filter type; otherwise the scanlines it
   decoded are the ones whose filtering is the raw data, and it has counted their pixels.
   */
  method DecodeAndCount(raw: Buffer, width: nat, height: nat, channels: nat, challenge: Option<Challenge>)
    returns (counts: Option<Counts>, ghost lines: seq<Scanline>)
    requires channels in {3, 4} && width > 0 && |raw| == height * (width * channels + 1)
    requires challenge.Some? ==> |challenge.value.colorRgb| == 3
    ensures counts.Some? <==> SupportedFilters(raw, height, width * channels)
    ensures counts.Some? ==>
              && |lines| == height && IsImage(lines, width * channels)
              && Filtered(lines, width * channels, channels) == raw
              && counts.value == CountImage(challenge, Rows(lines), width, channels)
  {
    hide Filtered, FilterRow, CountRow, CountImage, PreviousRow, FilterTypeAt, LineAt;
    var stride := width * channels;
    var previous := Zeros(stride);
    var n := NO_PIXELS;
    lines := [];
    NoLines(stride, width, channels, challenge);
    for row := 0 to height
      invariant |lines| == row && IsImage(lines, stride)
      invariant row * (stride + 1) <= |raw|
      invariant Filtered(lines, stride, channels) == raw[..row * (stride + 1)]
      invariant previous == PreviousRow(lines, stride)
      invariant n == CountImage(challenge, Rows(lines), width, channels)
      invariant SupportedFilters(raw, row, stride)
    {
      Scale(row + 1, height, stride + 1);
      NextLine(raw, row, stride);
      var filter := FilterTypeAt(raw, row, stride);
      var line := LineAt(raw, row, stride);
      var scanline := new Byte[stride](i requires 0 <= i < stride => line[i]);
      assert scanline[..] == line;
      var supported := UnfilterScanline(scanline, previous, filter, channels);
      if !supported {
        UnsupportedFilterStays(raw, row + 1, height, stride);
        return None, lines;
      }
      AppendLine(lines, Scanline(filter, scanline[..]), stride, width, channels, challenge);
      n := CountScanline(scanline[..], row, width, channels, challenge, n);
      previous := scanline[..];
      lines := lines + [Scanline(filter, scanline[..])];
    }
    assert raw[..|raw|] == raw;
    counts := Some(n);
  }

  lemma NoLines(stride: nat, width: nat, channels: nat, challenge: Option<Challenge>)
    requires channels >= 3
    ensures Filtered([], stride, channels) == [] && PreviousRow([], stride) == Zeros(stride)
    ensures CountImage(challenge, Rows([]), width, channels) == NO_PIXELS
  {
  }

  /** The two tallies: visible pixels, and pixels matching the challenge. */
  predicate Hit(matching: bool, challenge: Option<Challenge>, r: nat, c: nat, row: Row, channels: nat)
    requires channels >= 3
  {
    && (c + 1) * channels <= |row|
    && var pixel := PixelAt(row, c, channels);
       Scale(c, c + 1, channels);
       if matching then IsMatch(challenge, r, c, pixel, channels) else IsVisible(pixel, channels)
  }

  function Tally(n: Counts, matching: bool): nat {
    if matching then n.matching else n.visible
  }

  function HitsInRow(matching: bool, challenge: Option<Challenge>, r: nat, row: Row, columns: nat, channels: nat): set<(nat, nat)>
    requires channels >= 3
  {
    set c: nat | c < columns && Hit(matching, challenge, r, c, row, channels) :: (r, c)
  }

  /** The positions of the image whose pixels are hits. */
  function Hits(matching: bool, challenge: Option<Challenge>, image: seq<Row>, width: nat, channels: nat): set<(nat, nat)>
    requires channels >= 3
  {
    set r: nat, c: nat | r < |image| && c < width && Hit(matching, challenge, r, c, image[r], channels) :: (r, c)
  }

  lemma RowTallyStep(matching: bool, n: Counts, challenge: Option<Challenge>, r: nat, row: Row, c: nat, channels: nat)
    requires (c + 1) * channels <= |row| && channels >= 3
    ensures (Scale(c, c + 1, channels);
             Tally(CountRow(n, challenge, r, row, c + 1, channels), matching)
             == Tally(CountRow(n, challenge, r, row, c, channels), matching)
                + if Hit(matching, challenge, r, c, row, channels) then 1 else 0)
  {
    Scale(c, c + 1, channels);
  }

  lemma IsHitInRow(matching: bool, challenge: Option<Challenge>, r: nat, row: Row, columns: nat, channels: nat, p: (nat, nat))
    requires channels >= 3
    ensures p in HitsInRow(matching, challenge, r, row, columns, channels)
       <==> p.0 == r && p.1 < columns && Hit(matching, challenge, r, p.1, row, channels)
  {
    hide Hit;
    assert p == (p.0, p.1);
  }

  lemma RowHitsStep(matching: bool, challenge: Option<Challenge>, r: nat, row: Row, c: nat, channels: nat)
    requires channels >= 3
    ensures |HitsInRow(matching, challenge, r, row, c + 1, channels)|
         == |HitsInRow(matching, challenge, r, row, c, channels)|
            + if Hit(matching, challenge, r, c, row, channels) then 1 else 0
  {
    hide Hit, HitsInRow;
    var before, after := HitsInRow(matching, challenge, r, row, c, channels), HitsInRow(matching, challenge, r, row, c + 1, channels);
    forall p: (nat, nat)
      ensures p in after <==> p in before || (p == (r, c) && Hit(matching, challenge, r, c, row, channels))
      ensures p == (r, c) ==> p !in before
    {
      IsHitInRow(matching, challenge, r, row, c, channels, p);
      IsHitInRow(matching, challenge, r, row, c + 1, channels, p);
    }
    if Hit(matching, challenge, r, c, row, channels) {
      assert after == before + {(r, c)};
    } else {
      assert after == before;
    }
  }

  lemma {:induction false} RowTallyIsCardinality(matching: bool, n: Counts, challenge: Option<Challenge>, r: nat, row: Row, columns: nat, channels: nat)
    requires columns * channels <= |row| && channels >= 3
    ensures Tally(CountRow(n, challenge, r, row, columns, channels), matching)
         == Tally(n, matching) + |HitsInRow(matching, challenge, r, row, columns, channels)|
    decreases columns
  {
    hide Hit, Tally;
    if columns > 0 {
      Scale(columns - 1, columns, channels);
      RowTallyIsCardinality(matching, n, challenge, r, row, columns - 1, channels);
      RowTallyStep(matching, n, challenge, r, row, columns - 1, channels);
      RowHitsStep(matching, challenge, r, row, columns - 1, channels);
    }
  }

  lemma HitsStep(matching: bool, challenge: Option<Challenge>, image: seq<Row>, width: nat, channels: nat)
    requires channels >= 3 && image != []
    ensures var n := |image| - 1;
            |Hits(matching, challenge, image, width, channels)|
            == |Hits(matching, challenge, image[..n], width, channels)| + |HitsInRow(matching, challenge, n, image[n], width, channels)|
  {
    hide Hit;
    var n := |image| - 1;
    var above, last := Hits(matching, challenge, image[..n], width, channels), HitsInRow(matching, challenge, n, image[n], width, channels);
    assert Hits(matching, challenge, image, width, channels) == above + last;
    assert above !! last;
  }

  /** Both tallies are the numbers of positions whose pixels are visible, or match. */
  lemma {:induction false} TallyIsCardinality(matching: bool, challenge: Option<Challenge>, image: seq<Row>, width: nat, channels: nat)
    requires channels >= 3 && forall row | row in image :: |row| == width * channels
    ensures Tally(CountImage(challenge, image, width, channels), matching)
         == |Hits(matching, challenge, image, width, channels)|
    decreases |image|
  {
    hide Hit, HitsInRow;
    if image != [] {
      var n := |image| - 1;
      TallyIsCardinality(matching, challenge, image[..n], width, channels);
      RowTallyIsCardinality(matching, CountImage(challenge, image[..n], width, channels), challenge, n, image[n], width, channels);
      HitsStep(matching, challenge, image, width, channels);
    }
  }

  /** The distinct pixels counted are the pixels of the image. */
  lemma {:induction false} ValuesOfRow(n: Counts, challenge: Option<Challenge>, r: nat, row: Row, columns: nat, channels: nat, pixel: Pixel)
    requires columns * channels <= |row| && channels >= 3
    ensures pixel in CountRow(n, challenge, r, row, columns, channels).values <==>
            pixel in n.values ||
            exists c: nat :: c < columns && (c + 1) * channels <= |row| && PixelAt(row, c, channels) == pixel
    decreases columns
  {
    if columns > 0 {
      Scale(columns - 1, columns, channels);
      ValuesOfRow(n, challenge, r, row, columns - 1, channels, pixel);
      assert PixelAt(row, columns - 1, channels) == pixel ==>
        exists c: nat :: c < columns && (c + 1) * channels <= |row| && PixelAt(row, c, channels) == pixel;
    }
  }

  lemma {:induction false} ValuesAreThePixels(challenge: Option<Challenge>, image: seq<Row>, width: nat, channels: nat, pixel: Pixel)
    requires channels >= 3 && forall row | row in image :: |row| == width * channels
    ensures pixel in CountImage(challenge, image, width, channels).values <==>
            exists r: nat, c: nat :: r < |image| && c < width && (c + 1) * channels <= |image[r]|
                                     && PixelAt(image[r], c, channels) == pixel
    decreases |image|
  {
    if image != [] {
      var n := |image| - 1;
      ValuesAreThePixels(challenge, image[..n], width, channels, pixel);
      ValuesOfRow(CountImage(challenge, image[..n], width, channels), challenge, n, image[n], width, channels, pixel);
    }
  }

  // ----- the chunk walk

  datatype Malformed =
    | IncompletePng | TruncatedChunk | UnsupportedImage | InvalidEnd | MissingChunks
    | InvalidChallenge | CannotInflate | InvalidScanlines | UnsupportedFilter

  /** What the walk has found; a zero width or height counts as none yet. */
  datatype Found = Found(width: nat, height: nat, colorType: nat, idat: Buffer)

  const NOTHING := Found(0, 0, 0, [])

  datatype Result<+T> = Ok(value: T) | Err(error: Malformed)

  predicate SupportedHeader(data: Buffer) {
    && |data| == 13
    && data[8] == 8 && data[9] in {2, 6} && data[10] == 0 && data[11] == 0 && data[12] == 0
  }

  function ReadChunks(s: Buffer, found: Found): Result<Found>
    decreases |s|
  {
    if s == [] then Ok(found)
    else if !HasChunk(s) then Err(TruncatedChunk)
    else
      var c := ChunkAt(s);
      if c.Name() == IHDR then
        if found.width != 0 || !SupportedHeader(c.data) then Err(UnsupportedImage)
        else ReadChunks(Rest(s), found.(width := U32BE(c.data, 0), height := U32BE(c.data, 4), colorType := c.data[9]))
      else if c.Name() == IDAT then
        ReadChunks(Rest(s), found.(idat := found.idat + c.data))
      else if c.Name() == IEND then
        if c.data != [] || Rest(s) != [] then Err(InvalidEnd) else Ok(found)
      else
        ReadChunks(Rest(s), found)
  }

  method WalkChunks(bytes: Buffer) returns (r: Result<Found>)
    requires |bytes| >= 8
    ensures r == ReadChunks(bytes[8..], NOTHING)
  {
    hide ChunkAt, Rest, U32BE, Ascii;
    var found := NOTHING;
    var offset := 8;
    while offset < |bytes|
      invariant 8 <= offset <= |bytes|
      invariant ReadChunks(bytes[8..], NOTHING) == ReadChunks(bytes[offset..], found)
    {
      if offset + 12 > |bytes| {
        return Err(TruncatedChunk);
      }
      ChunkAhead(bytes, offset);
      var size := U32BE(bytes, offset);
      var chunkType := Ascii(bytes[offset + 4..offset + 8]);
      var dataStart := offset + 8;
      var dataEnd := dataStart + size;
      if dataEnd + 4 > |bytes| {
        return Err(TruncatedChunk);
      }
      var data := bytes[dataStart..dataEnd];
      if chunkType == IHDR {
        if found.width != 0 || !SupportedHeader(data) {
          return Err(UnsupportedImage);
        }
        found := found.(width := U32BE(data, 0), height := U32BE(data, 4), colorType := data[9]);
      } else if chunkType == IDAT {
        found := found.(idat := found.idat + data);
      } else if chunkType == IEND {
        if |data| != 0 || dataEnd + 4 != |bytes| {
          return Err(InvalidEnd);
        }
        return Ok(found);
      }
      offset := dataEnd + 4;
    }
    return Ok(found);
  }

  function Payload(c: Chunk): Buffer {
    if c.Name() == IDAT then c.data else []
  }

  /** The payloads of the image data chunks, joined. */
  function ImageData(chunks: seq<Chunk>): Buffer {
    if chunks == [] then []
    else Payload(chunks[0]) + ImageData(chunks[1..])
  }

  lemma ReadsOne(c: Chunk, rest: Buffer, found: Found)
    requires c.Sized() && (c.IsImageData() || c.IsAncillary())
    ensures ReadChunks(c.ToBytes() + rest, found) == ReadChunks(rest, found.(idat := found.idat + Payload(c)))
  {
    hide Chunk.Sized, ChunkAt, Rest;
    ReadsBack(c, rest);
    assert found.idat + [] == found.idat;
  }

  lemma ReadsEnd(c: Chunk, found: Found)
    requires c.Sized() && c.IsEnd()
    ensures ReadChunks(c.ToBytes() + [], found) == Ok(found)
    ensures Payload(c) == []
  {
    hide Chunk.Sized, ChunkAt, Rest;
    ReadsBack(c, []);
  }

  lemma {:induction false} ReadsTail(chunks: seq<Chunk>, found: Found)
    requires chunks != [] && forall c | c in chunks :: c.Sized()
    requires forall k | 0 <= k < |chunks| - 1 :: chunks[k].IsImageData() || chunks[k].IsAncillary()
    requires chunks[|chunks| - 1].IsEnd()
    ensures ReadChunks(ChunksToBytes(chunks), found) == Ok(found.(idat := found.idat + ImageData(chunks)))
    decreases |chunks|
  {
    hide Chunk.Sized, Chunk.ToBytes, ReadChunks, Payload;
    var c, tail := chunks[0], chunks[1..];
    if tail == [] {
      ReadsEnd(c, found);
      assert ChunksToBytes(tail) == [] && found.idat + ([] + []) == found.idat;
    } else {
      ReadsOne(c, ChunksToBytes(tail), found);
      ReadsTail(tail, found.(idat := found.idat + Payload(c)));
      assert found.idat + Payload(c) + ImageData(tail) == found.idat + (Payload(c) + ImageData(tail));
    }
  }

  /** On every structurally valid file the walk finds the header's fields and all the image data. */
  lemma ReadsPng(chunks: seq<Chunk>, first: nat, last: nat)
    requires WellFormed(chunks, first, last) && SupportedHeader(chunks[0].data)
    ensures ReadChunks(ChunksToBytes(chunks), NOTHING)
         == Ok(Found(U32BE(chunks[0].data, 0), U32BE(chunks[0].data, 4), chunks[0].data[9], ImageData(chunks)))
  {
    hide Chunk.Framed, Chunk.Sized, ChunkAt, Rest, U32BE;
    var header, tail := chunks[0], chunks[1..];
    forall c | c in chunks
      ensures c.Sized()
    {
      FramedIsSized(c);
    }
    ReadsBack(header, ChunksToBytes(tail));
    ReadsTail(tail, Found(U32BE(header.data, 0), U32BE(header.data, 4), header.data[9], []));
  }

  // ----- the inspection

  datatype Inspection =
    | Rejected(reason: Malformed)
    | Passed(widthPx: nat, heightPx: nat, pixelCount: nat, nonTransparentPixelCount: nat,
             nonTransparentPixelRatio: real, distinctPixelCount: nat, matchingChallengePixelCount: Option<nat>)

  function Report(width: nat, height: nat, challenge: Option<Challenge>, n: Counts): Inspection
    requires width > 0 && height > 0
  {
    Scale(1, height, width);
    Passed(width, height, width * height, n.visible, n.visible as real / (width * height) as real, |n.values|,
           if challenge.None? then None else Some(n.matching))
  }

  /** The different pixels of an image. */
  ghost function PixelsOf(image: seq<Row>, width: nat, channels: nat): set<Pixel> {
    set r: nat, c: nat | r < |image| && c < width && (c + 1) * channels <= |image[r]| :: PixelAt(image[r], c, channels)
  }

  /** What a passed inspection tells of an image: its sides, numbers of positions, and the number of different pixels. */
  ghost predicate Describes(r: Inspection, image: seq<Row>, width: nat, channels: nat, challenge: Option<Challenge>)
    requires channels >= 3
  {
    && r.Passed?
    && r.widthPx == width && r.heightPx == |image| && r.pixelCount == width * |image|
    && r.nonTransparentPixelCount == |Hits(false, challenge, image, width, channels)|
    && r.nonTransparentPixelRatio * (r.pixelCount as real) == r.nonTransparentPixelCount as real
    && r.distinctPixelCount == |PixelsOf(image, width, channels)|
    && r.matchingChallengePixelCount == (if challenge.None? then None else Some(|Hits(true, challenge, image, width, channels)|))
  }

  /** The report made of an image's counts describes the image. */
  lemma ReportDescribes(image: seq<Row>, width: nat, channels: nat, challenge: Option<Challenge>)
    requires width > 0 && image != [] && channels >= 3 && forall row | row in image :: |row| == width * channels
    ensures Describes(Report(width, |image|, challenge, CountImage(challenge, image, width, channels)), image, width, channels, challenge)
  {
    hide CountImage, Hits;
    var n := CountImage(challenge, image, width, channels);
    TallyIsCardinality(false, challenge, image, width, channels);
    TallyIsCardinality(true, challenge, image, width, channels);
    assert n.values == PixelsOf(image, width, channels) by {
      forall pixel: Pixel
        ensures pixel in n.values <==> pixel in PixelsOf(image, width, channels)
      {
        ValuesAreThePixels(challenge, image, width, channels, pixel);
      }
    }
    Scale(1, |image|, width);
    RatioIsUndone(n.visible as real, (width * |image|) as real);
  }

  lemma RatioIsUndone(x: real, y: real)
    requires y > 0.0
    ensures x / y * y == x
  {
  }

  /** The relation `inspectPng` computes, with zlib's inflate as a parameter. */
  ghost predicate Inspects(bytes: Buffer, challenge: Option<Challenge>, inflate: Buffer -> Option<Buffer>, r: Inspection) {
    if |bytes| < 45 || bytes[..8] != SIGNATURE then r == Rejected(IncompletePng)
    else
      match ReadChunks(bytes[8..], NOTHING)
      case Err(e) => r == Rejected(e)
      case Ok(found) =>
        if found.width == 0 || found.height == 0 || found.idat == [] then r == Rejected(MissingChunks)
        else if challenge.Some? && !challenge.value.Valid(found.width, found.height) then r == Rejected(InvalidChallenge)
        else
          match inflate(found.idat)
          case None => r == Rejected(CannotInflate)
          case Some(raw) => InspectsRaw(raw, found, challenge, r)
  }

  function Channels(found: Found): nat {
    if found.colorType == 6 then 4 else 3
  }

  ghost predicate InspectsRaw(raw: Buffer, found: Found, challenge: Option<Challenge>, r: Inspection)
    requires found.width > 0 && found.height > 0
  {
    var channels := Channels(found);
    var stride := found.width * channels;
    if |raw| != found.height * (stride + 1) then r == Rejected(InvalidScanlines)
    else if !SupportedFilters(raw, found.height, stride) then r == Rejected(UnsupportedFilter)
    else
      exists lines :: DecodesTo(raw, found, lines) && Describes(r, Rows(lines), found.width, channels, challenge)
  }

  /** `raw` is the filtering of these scanlines. */
  ghost predicate DecodesTo(raw: Buffer, found: Found, lines: seq<Scanline>) {
    var stride := found.width * Channels(found);
    |lines| == found.height && IsImage(lines, stride) && Filtered(lines, stride, Channels(found)) == raw
  }

  method InspectPng(bytes: Buffer, challenge: Option<Challenge>, inflate: Buffer -> Option<Buffer>)
    returns (r: Inspection)
    ensures Inspects(bytes, challenge, inflate, r)
  {
    if |bytes| < 45 || bytes[..8] != SIGNATURE {
      return Rejected(IncompletePng);
    }
    var walked := WalkChunks(bytes);
    if walked.Err? {
      return Rejected(walked.error);
    }
    var found := walked.value;
    if found.width == 0 || found.height == 0 || |found.idat| == 0 {
      return Rejected(MissingChunks);
    }
    var channels := Channels(found);
    if challenge.Some? && !challenge.value.Valid(found.width, found.height) {
      return Rejected(InvalidChallenge);
    }
    var inflated := inflate(found.idat);
    if inflated.None? {
      return Rejected(CannotInflate);
    }
    r := InspectRaw(inflated.value, found, challenge);
  }

  method InspectRaw(raw: Buffer, found: Found, challenge: Option<Challenge>) returns (r: Inspection)
    requires found.width > 0 && found.height > 0
    requires challenge.Some? ==> challenge.value.Valid(found.width, found.height)
    ensures InspectsRaw(raw, found, challenge, r)
  {
    hide Filtered, CountImage;
    var channels := Channels(found);
    if |raw| != found.height * (found.width * channels + 1) {
      return Rejected(InvalidScanlines);
    }
    var counts;
    ghost var lines;
    counts, lines := DecodeAndCount(raw, found.width, found.height, channels, challenge);
    if counts.None? {
      return Rejected(UnsupportedFilter);
    }
    r := Report(found.width, found.height, challenge, counts.value);
    assert DecodesTo(raw, found, lines);
    ReportDescribes(Rows(lines), found.width, channels, challenge);
  }

  lemma {:induction false} FiltersAreSupported(raw: Buffer, found: Found, lines: seq<Scanline>, rows: nat)
    requires found.width > 0 && DecodesTo(raw, found, lines) && rows <= found.height
    ensures rows * (found.width * Channels(found) + 1) <= |raw|
    ensures SupportedFilters(raw, rows, found.width * Channels(found))
    decreases rows
  {
    var stride, channels := found.width * Channels(found), Channels(found);
    FilteredLength(lines, stride, channels);
    Scale(rows, found.height, stride + 1);
    if rows > 0 {
      FiltersAreSupported(raw, found, lines, rows - 1);
      FilterTypesSurvive(lines, rows - 1, stride, channels);
    }
  }

  lemma {:induction false} FilterTypesSurvive(lines: seq<Scanline>, r: nat, stride: nat, channels: nat)
    requires IsImage(lines, stride) && channels > 0 && r < |lines|
    ensures (r + 1) * (stride + 1) <= |Filtered(lines, stride, channels)|
    ensures FilterTypeAt(Filtered(lines, stride, channels), r, stride) == lines[r].filter
    decreases |lines|
  {
    var n := |lines| - 1;
    FilteredLength(lines, stride, channels);
    FilteredLength(lines[..n], stride, channels);
    Scale(r + 1, |lines|, stride + 1);
    if r < n {
      FilterTypesSurvive(lines[..n], r, stride, channels);
      Scale(r, r + 1, stride + 1);
    }
  }

  /**
   The main result. Take any image, any filter type for each of its rows, and any
   structurally valid PNG file whose image data inflates to the filtered rows. The
   inspection passes, and what it tells is true of the image itself.
   */
  lemma EncodedImageIsCounted(chunks: seq<Chunk>, first: nat, last: nat, lines: seq<Scanline>,
                              challenge: Option<Challenge>, inflate: Buffer -> Option<Buffer>, r: Inspection)
    requires WellFormed(chunks, first, last) && SupportedHeader(chunks[0].data)
    requires var header := chunks[0].data;
             var found := Found(U32BE(header, 0), U32BE(header, 4), header[9], ImageData(chunks));
             && (challenge.Some? ==> challenge.value.Valid(found.width, found.height))
             && inflate(ImageData(chunks)).Some?
             && DecodesTo(inflate(ImageData(chunks)).value, found, lines)
    requires Inspects(SIGNATURE + ChunksToBytes(chunks), challenge, inflate, r)
    ensures var header := chunks[0].data;
            var channels := if header[9] == 6 then 4 else 3;
            |lines| == U32BE(header, 4) && Describes(r, Rows(lines), U32BE(header, 0), channels, challenge)
  {
    hide Filtered, Describes, Chunk.Framed, ReadChunks;
    var header := chunks[0].data;
    var found := Found(U32BE(header, 0), U32BE(header, 4), header[9], ImageData(chunks));
    var bytes := SIGNATURE + ChunksToBytes(chunks);
    assert bytes[..8] == SIGNATURE && bytes[8..] == ChunksToBytes(chunks);
    ReadsPng(chunks, first, last);
    ImageDataIsNonempty(chunks, first);
    PngLength(chunks, first, last);
    var raw := inflate(ImageData(chunks)).value;
    var stride, channels := found.width * Channels(found), Channels(found);
    FilteredLength(lines, stride, channels);
    FiltersAreSupported(raw, found, lines, found.height);
    var decoded :| DecodesTo(raw, found, decoded) && Describes(r, Rows(decoded), found.width, channels, challenge);
    FilteredIsInjective(lines, decoded, stride, channels);
  }

  lemma {:induction false} ImageDataIsNonempty(chunks: seq<Chunk>, k: nat)
    requires k < |chunks| && chunks[k].IsImageData()
    ensures ImageData(chunks) != []
  {
    if k > 0 {
      ImageDataIsNonempty(chunks[1..], k - 1);
    }
  }

  lemma {:induction false} ChunksLength(chunks: seq<Chunk>)
    requires forall c | c in chunks :: c.Framed()
    ensures |ChunksToBytes(chunks)| >= 12 * |chunks|
  {
    if chunks != [] {
      assert chunks[0].Framed();
      ChunksLength(chunks[1..]);
    }
  }

  lemma PngLength(chunks: seq<Chunk>, first: nat, last: nat)
    requires WellFormed(chunks, first, last)
    ensures |SIGNATURE + ChunksToBytes(chunks)| >= 45
  {
    ChunksLength(chunks[1..]);
  }
}
