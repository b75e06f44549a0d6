/**
 `validJpeg` of scripts/testbed/hard-cutover-absence.ts against the marker syntax of
 ITU-T T.81, Annex B.
 */
module Jpeg {
  import opened Bytes

  const FF: Byte := 0xFF
  const EOI: Byte := 0xD9
  const SOS: Byte := 0xDA

  // ----- the grammar

  function Fill(n: nat): (run: Buffer)
    ensures |run| == n && forall i :: 0 <= i < n ==> run[i] == FF
  {
    seq(n, _ => FF)
  }

  predicate IsRestart(marker: Byte) {
    0xD0 <= marker <= 0xD7
  }

  predicate IsStartOfFrame(marker: Byte) {
    0xC0 <= marker <= 0xC3 || 0xC5 <= marker <= 0xC7 || 0xC9 <= marker <= 0xCB || 0xCD <= marker <= 0xCF
  }

  /** A marker that opens a segment: neither stuffing, TEM, SOI, EOI nor a restart. */
  predicate OpensSegment(marker: Byte) {
    marker !in {0x00, 0x01, 0xD8, EOI, FF} && !IsRestart(marker)
  }

  /** A frame header names a nonzero size and holds exactly its component entries. */
  predicate IsFrameHeader(payload: Buffer) {
    && |payload| >= 6
    && U16BE(payload, 1) != 0 && U16BE(payload, 3) != 0
    && payload[5] != 0 && |payload| + 2 == 8 + 3 * (payload[5] as int)
  }

  predicate IsScanHeader(payload: Buffer) {
    payload != [] && payload[0] != 0 && |payload| + 2 == 6 + 2 * (payload[0] as int)
  }

  /** Fill bytes, a marker, a two-byte length that counts itself, and a payload. */
  datatype Segment = Segment(fill: nat, marker: Byte, lengthField: Buffer, payload: Buffer) {
    predicate Framed() {
      && fill >= 1 && OpensSegment(marker)
      && |lengthField| == 2 && U16BE(lengthField, 0) == 2 + |payload|
      && (IsStartOfFrame(marker) ==> IsFrameHeader(payload))
      && (marker == SOS ==> IsScanHeader(payload))
    }

    function ToBytes(): Buffer {
      Fill(fill) + ([marker] + (lengthField + payload))
    }
  }

  /**
   A unit of entropy-coded data: a plain byte, a stuffed FF (a run of FF, then zero), or a
   restart marker (a run of FF, then D0 to D7). The first two carry data.
   */
  datatype Unit = Unit(fill: nat, byte: Byte) {
    predicate CarriesData() {
      if fill == 0 then byte != FF else byte == 0x00
    }

    predicate Valid() {
      CarriesData() || (fill >= 1 && IsRestart(byte))
    }

    function ToBytes(): Buffer {
      Fill(fill) + [byte]
    }
  }

  function UnitsToBytes(units: seq<Unit>): Buffer {
    if units == [] then [] else units[0].ToBytes() + UnitsToBytes(units[1..])
  }

  function SegmentsToBytes(segments: seq<Segment>): Buffer {
    if segments == [] then [] else segments[0].ToBytes() + SegmentsToBytes(segments[1..])
  }

  function FrameCount(segments: seq<Segment>): nat {
    if segments == [] then 0
    else (if IsStartOfFrame(segments[0].marker) then 1 else 0) + FrameCount(segments[1..])
  }

  /** After the scan header: entropy data with some data in it, then EOI, which ends the buffer. */
  datatype Scan = Scan(units: seq<Unit>, endFill: nat) {
    predicate Valid(sawData: bool) {
      && endFill >= 1
      && (forall u | u in units :: u.Valid())
      && (sawData || exists u :: u in units && u.CarriesData())
    }

    function ToBytes(): Buffer {
      UnitsToBytes(units) + (Fill(endFill) + [EOI])
    }
  }

  /** Segments up to the scan header, which is the last one, and the scan. */
  datatype Body = Body(segments: seq<Segment>, scanHeader: Segment, scan: Scan) {
    predicate Valid(frames: nat) {
      && (forall s | s in segments :: s.Framed() && s.marker != SOS)
      && FrameCount(segments) == frames
      && scanHeader.Framed() && scanHeader.marker == SOS
      && scan.Valid(false)
    }

    function ToBytes(): Buffer {
      SegmentsToBytes(segments) + (scanHeader.ToBytes() + scan.ToBytes())
    }
  }

  ghost predicate IsJpeg(bytes: Buffer) {
    exists body: Body :: body.Valid(1) && bytes == [0xFF, 0xD8] + body.ToBytes()
  }

  // ----- the scanner, on the bytes still ahead

  function LeadingFill(s: Buffer): (n: nat)
    ensures n <= |s|
    ensures forall i :: 0 <= i < n ==> s[i] == FF
    ensures n < |s| ==> s[n] != FF
  {
    if s == [] || s[0] != FF then 0 else 1 + LeadingFill(s[1..])
  }

  predicate HasSegment(s: Buffer) {
    var n := LeadingFill(s);
    && 1 <= n < |s| && OpensSegment(s[n])
    && n + 3 <= |s| && U16BE(s, n + 1) >= 2 && n + 1 + U16BE(s, n + 1) <= |s|
  }

  function SegmentAt(s: Buffer): Segment
    requires HasSegment(s)
  {
    var n := LeadingFill(s);
    Segment(n, s[n], s[n + 1..n + 3], s[n + 3..n + 1 + U16BE(s, n + 1)])
  }

  function AfterSegment(s: Buffer): (rest: Buffer)
    requires HasSegment(s)
    ensures |rest| < |s|
  {
    var n := LeadingFill(s);
    s[n + 1 + U16BE(s, n + 1)..]
  }

  function ScanSegments(s: Buffer, sawFrame: bool): bool
    decreases |s|
  {
    if !HasSegment(s) then false
    else
      var segment := SegmentAt(s);
      if !segment.Framed() then false
      else if IsStartOfFrame(segment.marker) then !sawFrame && ScanSegments(AfterSegment(s), true)
      else if segment.marker == SOS then sawFrame && ScanEntropy(AfterSegment(s), false)
      else ScanSegments(AfterSegment(s), sawFrame)
  }

  function ScanEntropy(s: Buffer, sawData: bool): bool
    decreases |s|
  {
    var n := LeadingFill(s);
    if n >= |s| then false
    else if n == 0 then ScanEntropy(s[1..], true)
    else if s[n] == 0x00 then ScanEntropy(s[n + 1..], true)
    else if IsRestart(s[n]) then ScanEntropy(s[n + 1..], sawData)
    else s[n] == EOI && sawData && n + 1 == |s|
  }

  // ----- reading back what the grammar writes

  lemma FillReadsBack(n: nat, marker: Byte, rest: Buffer)
    requires marker != FF
    ensures var s := Fill(n) + ([marker] + rest);
            LeadingFill(s) == n && |s| == n + 1 + |rest| && s[n] == marker && s[n + 1..] == rest
  {
    var s := Fill(n) + ([marker] + rest);
    assert s[n] == marker;
    assert forall i :: 0 <= i < n ==> s[i] == FF;
  }

  lemma SegmentReadsBack(segment: Segment, rest: Buffer)
    requires segment.Framed()
    ensures var s := segment.ToBytes() + rest;
            HasSegment(s) && SegmentAt(s) == segment && AfterSegment(s) == rest
  {
    var s := segment.ToBytes() + rest;
    var n := segment.fill;
    var tail := segment.lengthField + segment.payload + rest;
    assert s == Fill(n) + ([segment.marker] + tail);
    FillReadsBack(n, segment.marker, tail);
    assert tail[..2] == segment.lengthField && tail[2..2 + |segment.payload|] == segment.payload;
    assert tail[2 + |segment.payload|..] == rest;
    assert forall k :: 0 <= k < |tail| ==> s[n + 1 + k] == tail[k];
    assert U16BE(s, n + 1) == U16BE(segment.lengthField, 0);
  }

  lemma SegmentSplits(s: Buffer)
    requires HasSegment(s)
    ensures s == SegmentAt(s).ToBytes() + AfterSegment(s)
  {
    var n := LeadingFill(s);
    assert s[..n] == Fill(n);
    assert s == s[..n] + ([s[n]] + (s[n + 1..n + 3] + s[n + 3..n + 1 + U16BE(s, n + 1)])) + AfterSegment(s);
  }

  // ----- soundness and completeness of the scanner

  lemma {:induction false} EntropyIsScanned(scan: Scan, sawData: bool)
    requires scan.Valid(sawData)
    ensures ScanEntropy(scan.ToBytes(), sawData)
    decreases |scan.units|
  {
    hide ScanEntropy, LeadingFill;
    EntropyTurn(scan.ToBytes(), sawData);
    if scan.units == [] {
      FillReadsBack(scan.endFill, EOI, []);
      assert scan.ToBytes() == Fill(scan.endFill) + ([EOI] + []);
    } else {
      var u := scan.units[0];
      var next := Scan(scan.units[1..], scan.endFill);
      assert u.Valid();
      FillReadsBack(u.fill, u.byte, next.ToBytes());
      assert scan.ToBytes() == Fill(u.fill) + ([u.byte] + next.ToBytes());
      EntropyIsScanned(next, sawData || u.CarriesData());
    }
  }

  lemma PrependUnit(u: Unit, tail: Scan, sawData: bool)
    requires u.Valid() && tail.Valid(sawData || u.CarriesData())
    ensures Scan([u] + tail.units, tail.endFill).Valid(sawData)
    ensures Scan([u] + tail.units, tail.endFill).ToBytes() == u.ToBytes() + tail.ToBytes()
  {
    var units := [u] + tail.units;
    assert units[1..] == tail.units;
    assert u in units && forall v :: v in tail.units ==> v in units;
  }

  lemma {:induction false} ScannedIsEntropy(s: Buffer, sawData: bool) returns (scan: Scan)
    requires ScanEntropy(s, sawData)
    ensures scan.Valid(sawData) && scan.ToBytes() == s
    decreases |s|
  {
    var n := LeadingFill(s);
    var u := Unit(n, s[n]);
    assert s[..n] == Fill(n) && s == (s[..n] + [s[n]]) + s[n + 1..];
    if u.Valid() {
      var tail := ScannedIsEntropy(s[n + 1..], sawData || u.CarriesData());
      PrependUnit(u, tail, sawData);
      scan := Scan([u] + tail.units, tail.endFill);
    } else {
      scan := Scan([], n);
    }
  }

  predicate ValidFrom(body: Body, sawFrame: bool) {
    body.Valid(if sawFrame then 0 else 1)
  }

  lemma {:induction false} BodyIsScanned(body: Body, sawFrame: bool)
    requires ValidFrom(body, sawFrame)
    ensures ScanSegments(body.ToBytes(), sawFrame)
    decreases |body.segments|
  {
    hide Segment.ToBytes, HasSegment, SegmentAt, AfterSegment, ScanEntropy;
    if body.segments == [] {
      SegmentReadsBack(body.scanHeader, body.scan.ToBytes());
      EntropyIsScanned(body.scan, false);
      assert body.ToBytes() == body.scanHeader.ToBytes() + body.scan.ToBytes();
    } else {
      var segment := body.segments[0];
      var next := body.(segments := body.segments[1..]);
      SegmentReadsBack(segment, next.ToBytes());
      assert body.ToBytes() == segment.ToBytes() + next.ToBytes();
      BodyIsScanned(next, sawFrame || IsStartOfFrame(segment.marker));
    }
  }

  lemma {:induction false} ScannedIsBody(s: Buffer, sawFrame: bool) returns (body: Body)
    requires ScanSegments(s, sawFrame)
    ensures ValidFrom(body, sawFrame) && body.ToBytes() == s
    decreases |s|
  {
    hide Segment.ToBytes, HasSegment, SegmentAt, AfterSegment, ScanEntropy;
    var segment := SegmentAt(s);
    SegmentSplits(s);
    if segment.marker == SOS {
      var scan := ScannedIsEntropy(AfterSegment(s), false);
      body := Body([], segment, scan);
      assert body.ToBytes() == segment.ToBytes() + scan.ToBytes();
    } else {
      var tail := ScannedIsBody(AfterSegment(s), sawFrame || IsStartOfFrame(segment.marker));
      body := tail.(segments := [segment] + tail.segments);
      assert body.segments[1..] == tail.segments;
      assert body.ToBytes() == segment.ToBytes() + tail.ToBytes();
    }
  }

  lemma ScanAcceptsExactlyJpeg(bytes: Buffer)
    ensures IsJpeg(bytes) <==> |bytes| >= 2 && bytes[..2] == [0xFF, 0xD8] && ScanSegments(bytes[2..], false)
  {
    hide ScanSegments, Body.Valid, Body.ToBytes;
    if |bytes| >= 2 && bytes[..2] == [0xFF, 0xD8] && ScanSegments(bytes[2..], false) {
      var body := ScannedIsBody(bytes[2..], false);
      assert bytes == [0xFF, 0xD8] + bytes[2..];
    }
    if IsJpeg(bytes) {
      var body: Body :| body.Valid(1) && bytes == [0xFF, 0xD8] + body.ToBytes();
      BodyIsScanned(body, false);
      assert bytes[2..] == body.ToBytes();
    }
  }

  lemma {:induction false} EndIsNotScanned(segments: seq<Segment>, fill: nat, rest: Buffer, sawFrame: bool)
    requires forall s | s in segments :: s.Framed() && s.marker != SOS
    ensures !ScanSegments(SegmentsToBytes(segments) + (Fill(fill) + ([EOI] + rest)), sawFrame)
    decreases |segments|
  {
    hide Segment.ToBytes, SegmentAt, AfterSegment;
    var end := Fill(fill) + ([EOI] + rest);
    if segments == [] {
      FillReadsBack(fill, EOI, rest);
      assert SegmentsToBytes(segments) + end == end;
    } else {
      hide HasSegment;
      var tail := SegmentsToBytes(segments[1..]) + end;
      SegmentReadsBack(segments[0], tail);
      assert SegmentsToBytes(segments) + end == segments[0].ToBytes() + tail;
      EndIsNotScanned(segments[1..], fill, rest, sawFrame || IsStartOfFrame(segments[0].marker));
    }
  }

  /**
   An end-of-image marker between segments, before any scan, always means rejection: the
   outer loop's own acceptance of that marker is never taken.
   */
  lemma EndBeforeScanIsRejected(segments: seq<Segment>, fill: nat, rest: Buffer)
    requires forall s | s in segments :: s.Framed() && s.marker != SOS
    ensures !IsJpeg([0xFF, 0xD8] + (SegmentsToBytes(segments) + (Fill(fill) + ([EOI] + rest))))
  {
    hide IsJpeg, ScanSegments;
    var s := SegmentsToBytes(segments) + (Fill(fill) + ([EOI] + rest));
    ScanAcceptsExactlyJpeg([0xFF, 0xD8] + s);
    assert ([0xFF, 0xD8] + s)[2..] == s;
    EndIsNotScanned(segments, fill, rest, false);
  }

  // ----- the loops

  /** One turn of the scan-data loop, in terms of the bytes still ahead. */
  lemma EntropyAhead(bytes: Buffer, offset: nat, markerOffset: nat, sawData: bool)
    requires offset <= |bytes| && markerOffset == offset + LeadingFill(bytes[offset..])
    ensures ScanEntropy(bytes[offset..], sawData) ==
            if markerOffset >= |bytes| then false
            else if markerOffset == offset then ScanEntropy(bytes[offset + 1..], true)
            else if bytes[markerOffset] == 0x00 then ScanEntropy(bytes[markerOffset + 1..], true)
            else if IsRestart(bytes[markerOffset]) then ScanEntropy(bytes[markerOffset + 1..], sawData)
            else bytes[markerOffset] == EOI && sawData && markerOffset + 1 == |bytes|
  {
    hide ScanEntropy, LeadingFill, IsRestart;
    var s := bytes[offset..];
    EntropyTurn(s, sawData);
    if offset < |bytes| {
      assert s[1..] == bytes[offset + 1..];
    }
    if markerOffset < |bytes| {
      assert s[markerOffset - offset] == bytes[markerOffset];
      assert s[markerOffset - offset + 1..] == bytes[markerOffset + 1..];
    }
  }

  lemma EntropyTurn(s: Buffer, sawData: bool)
    ensures var n := LeadingFill(s);
            ScanEntropy(s, sawData) ==
            if n >= |s| then false
            else if n == 0 then ScanEntropy(s[1..], true)
            else if s[n] == 0x00 then ScanEntropy(s[n + 1..], true)
            else if IsRestart(s[n]) then ScanEntropy(s[n + 1..], sawData)
            else s[n] == EOI && sawData && n + 1 == |s|
  {
    hide LeadingFill, IsRestart;
  }

  /** The scan-data loop. */
  method ValidScanData(bytes: Buffer, start: nat) returns (ok: bool)
    requires start <= |bytes|
    ensures ok == ScanEntropy(bytes[start..], false)
  {
    hide ScanEntropy;
    var offset := start;
    var sawScanData := false;
    while offset < |bytes|
      invariant start <= offset <= |bytes|
      invariant ScanEntropy(bytes[start..], false) == ScanEntropy(bytes[offset..], sawScanData)
    {
      EntropyAhead(bytes, offset, offset + LeadingFill(bytes[offset..]), sawScanData);
      if bytes[offset] != FF {
        sawScanData := true;
        offset := offset + 1;
        continue;
      }
      var markerOffset := SkipFill(bytes, offset);
      if markerOffset >= |bytes| {
        return false;
      }
      var scanMarker := bytes[markerOffset];
      if scanMarker == 0x00 {
        sawScanData := true;
        offset := markerOffset + 1;
        continue;
      }
      if scanMarker >= 0xD0 && scanMarker <= 0xD7 {
        offset := markerOffset + 1;
        continue;
      }
      if scanMarker == 0xD9 {
        return sawScanData && markerOffset + 1 == |bytes|;
      }
      return false;
    }
    EntropyAhead(bytes, offset, offset + LeadingFill(bytes[offset..]), sawScanData);
    return false;
  }

  /** The inner loop over a run of FF bytes. */
  method SkipFill(bytes: Buffer, start: nat) returns (offset: nat)
    requires start <= |bytes|
    ensures offset == start + LeadingFill(bytes[start..]) <= |bytes|
  {
    offset := start;
    while offset < |bytes| && bytes[offset] == FF
      invariant start <= offset <= |bytes|
      invariant start + LeadingFill(bytes[start..]) == offset + LeadingFill(bytes[offset..])
    {
      assert bytes[offset..][1..] == bytes[offset + 1..];
      offset := offset + 1;
    }
  }

  lemma SegmentAhead(bytes: Buffer, offset: nat, markerOffset: nat)
    requires offset <= |bytes| && markerOffset == offset + LeadingFill(bytes[offset..])
    ensures HasSegment(bytes[offset..]) <==>
            && markerOffset < |bytes| && offset < markerOffset && OpensSegment(bytes[markerOffset])
            && markerOffset + 3 <= |bytes|
            && U16BE(bytes, markerOffset + 1) >= 2
            && markerOffset + 1 + U16BE(bytes, markerOffset + 1) <= |bytes|
    ensures HasSegment(bytes[offset..]) ==>
            var length := U16BE(bytes, markerOffset + 1);
            && SegmentAt(bytes[offset..]) == Segment(markerOffset - offset, bytes[markerOffset],
                 bytes[markerOffset + 1..markerOffset + 3], bytes[markerOffset + 3..markerOffset + 1 + length])
            && U16BE(bytes[markerOffset + 1..markerOffset + 3], 0) == length
            && AfterSegment(bytes[offset..]) == bytes[markerOffset + 1 + length..]
  {
  }

  lemma ShortIsRejected(s: Buffer)
    requires |s| < 2
    ensures !ScanSegments(s, false)
  {
  }

  /** `validJpeg`: true exactly for the buffers of the grammar. */
  method ValidJpeg(bytes: Buffer) returns (ok: bool)
    ensures ok <==> IsJpeg(bytes)
  {
    hide IsJpeg, HasSegment, SegmentAt, AfterSegment, ScanEntropy, U16BE;
    ScanAcceptsExactlyJpeg(bytes);
    ShortIsRejected([]);
    if |bytes| in {2, 3} {
      ShortIsRejected(bytes[2..]);
    }
    if |bytes| < 4 || bytes[0] != 0xFF || bytes[1] != 0xD8 {
      return false;
    }
    assert bytes[..2] == [0xFF, 0xD8];
    var offset := 2;
    var sawFrame, sawScan, sawScanData := false, false, false;
    while offset < |bytes|
      invariant 2 <= offset <= |bytes|
      invariant !sawScan && !sawScanData
      invariant IsJpeg(bytes) == ScanSegments(bytes[offset..], sawFrame)
      decreases |bytes| - offset
    {
      ghost var start := offset;
      SegmentAhead(bytes, offset, offset + LeadingFill(bytes[offset..]));
      if bytes[offset] != FF {
        return false;
      }
      offset := SkipFill(bytes, offset);
      if offset >= |bytes| {
        return false;
      }
      var marker := bytes[offset];
      offset := offset + 1;
      if marker == EOI {
        return sawFrame && sawScan && sawScanData && offset == |bytes|;
      }
      if marker == 0x00 || marker == 0x01 || marker == 0xD8 {
        return false;
      }
      if marker >= 0xD0 && marker <= 0xD7 {
        return false;
      }
      if offset + 2 > |bytes| {
        return false;
      }
      var segmentLength := U16BE(bytes, offset);
      if segmentLength < 2 || offset + segmentLength > |bytes| {
        return false;
      }
      var segmentStart := offset + 2;
      var segmentEnd := offset + segmentLength;
      ghost var segment := SegmentAt(bytes[start..]);
      var isStartOfFrame := || (marker >= 0xC0 && marker <= 0xC3) || (marker >= 0xC5 && marker <= 0xC7)
                            || (marker >= 0xC9 && marker <= 0xCB) || (marker >= 0xCD && marker <= 0xCF);
      if isStartOfFrame {
        if sawFrame || segmentLength < 8 {
          return false;
        }
        SliceU16BE(bytes, segmentStart, segmentEnd, 1);
        SliceU16BE(bytes, segmentStart, segmentEnd, 3);
        var componentCount := bytes[segmentStart + 5];
        if U16BE(bytes, segmentStart + 1) == 0 || U16BE(bytes, segmentStart + 3) == 0
           || componentCount == 0 || segmentLength != 8 + 3 * (componentCount as int)
        {
          return false;
        }
        sawFrame := true;
      }
      if marker == SOS {
        // Past the end of the buffer the component count is undefined and the length test fails.
        if segmentStart >= |bytes| {
          return false;
        }
        var componentCount := bytes[segmentStart];
        if !sawFrame || sawScan || componentCount == 0 || segmentLength != 6 + 2 * (componentCount as int) {
          return false;
        }
        sawScan := true;
        ok := ValidScanData(bytes, segmentEnd);
        return;
      }
      offset := segmentEnd;
    }
    return false;
  }
}
