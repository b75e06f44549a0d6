/**
 `validMp4` of scripts/testbed/hard-cutover-absence.ts: a file that is a sequence of boxes,
 as section 4.2 of ISO/IEC 14496-12 frames them, opened by a file-type box.
 */
module Mp4 {
  import opened Bytes

  const FTYP: Buffer := [0x66, 0x74, 0x79, 0x70]

  /** A box with its size field, type, the 64-bit size when there is one, and the payload. */
  datatype Box = Box(sizeField: Buffer, typeField: Buffer, largeField: Buffer, payload: Buffer) {
    function HeaderSize(): nat {
      |sizeField| + |typeField| + |largeField|
    }

    /** A size of one announces a 64-bit size; a size of zero means "to the end of the file". */
    predicate Framed(isLast: bool) {
      && |sizeField| == |typeField| == 4
      && var size := U32BE(sizeField, 0);
         if size == 1 then
           |largeField| == 8 && U64BE(largeField, 0) == HeaderSize() + |payload| <= MAX_SAFE_INTEGER
         else
           |largeField| == 0 && (if size == 0 then isLast else size == HeaderSize() + |payload|)
    }

    /** Brand, version, and a whole number of compatible brands. */
    predicate IsFileType() {
      Ascii(typeField) == FTYP && |payload| >= 8 && (|payload| - 8) % 4 == 0
    }

    function ToBytes(): Buffer {
      sizeField + (typeField + (largeField + payload))
    }
  }

  function BoxesToBytes(boxes: seq<Box>): Buffer {
    if boxes == [] then [] else boxes[0].ToBytes() + BoxesToBytes(boxes[1..])
  }

  predicate WellFramed(boxes: seq<Box>) {
    forall k | 0 <= k < |boxes| :: boxes[k].Framed(k == |boxes| - 1)
  }

  ghost predicate IsMp4(bytes: Buffer) {
    exists boxes: seq<Box> :: boxes != [] && WellFramed(boxes) && boxes[0].IsFileType() && bytes == BoxesToBytes(boxes)
  }

  // ----- the walk, on the bytes still ahead

  /** The size of the box in front, header included; zero when the header does not fit or is out of range. */
  function BoxSize(s: Buffer): nat
    requires |s| >= 8
  {
    var size := U32BE(s, 0);
    if size == 1 then (if |s| < 16 || U64BE(s, 8) > MAX_SAFE_INTEGER then 0 else U64BE(s, 8))
    else if size == 0 then |s|
    else size
  }

  function HeaderSize(s: Buffer): nat
    requires |s| >= 8
  {
    if U32BE(s, 0) == 1 then 16 else 8
  }

  predicate HasBox(s: Buffer) {
    |s| >= 8 && HeaderSize(s) <= BoxSize(s) <= |s|
  }

  function BoxAt(s: Buffer): Box
    requires HasBox(s)
  {
    Box(s[..4], s[4..8], s[8..HeaderSize(s)], s[HeaderSize(s)..BoxSize(s)])
  }

  function AfterBox(s: Buffer): (rest: Buffer)
    requires HasBox(s)
    ensures |rest| < |s|
  {
    s[BoxSize(s)..]
  }

  function Walk(s: Buffer, first: bool): bool
    decreases |s|
  {
    if s == [] then !first
    else HasBox(s) && (first ==> BoxAt(s).IsFileType()) && Walk(AfterBox(s), false)
  }

  lemma FourParts(a: Buffer, b: Buffer, c: Buffer, d: Buffer, rest: Buffer)
    requires |a| == |b| == 4
    ensures var s, h := (a + (b + (c + d))) + rest, 8 + |c|;
            s[..4] == a && s[4..8] == b && s[8..h] == c && s[h..h + |d|] == d && s[h + |d|..] == rest
  {
  }

  lemma BoxReadsBack(b: Box, rest: Buffer)
    requires b.Framed(rest == [])
    ensures var s := b.ToBytes() + rest; HasBox(s) && BoxAt(s) == b && AfterBox(s) == rest
  {
    var s := b.ToBytes() + rest;
    FourParts(b.sizeField, b.typeField, b.largeField, b.payload, rest);
    assert U32BE(s, 0) == U32BE(s[..4], 0);
    if |b.largeField| == 8 {
      SameU64BE(s, b.largeField);
    }
  }

  lemma SameU64BE(s: Buffer, field: Buffer)
    requires |s| >= 16 && |field| == 8 && s[8..16] == field
    ensures U64BE(s, 8) == U64BE(field, 0)
  {
    assert forall k :: 0 <= k < 8 ==> s[8 + k] == s[8..16][k];
  }

  lemma BoxSplits(s: Buffer)
    requires HasBox(s)
    ensures s == BoxAt(s).ToBytes() + AfterBox(s)
    ensures BoxAt(s).Framed(AfterBox(s) == [])
    ensures BoxAt(s).ToBytes() != []
  {
    var h, n := HeaderSize(s), BoxSize(s);
    assert s == s[..4] + (s[4..8] + (s[8..h] + s[h..n])) + s[n..];
    assert U32BE(s[..4], 0) == U32BE(s, 0);
    if h == 16 {
      SameU64BE(s, s[8..16]);
    }
  }

  lemma {:induction false} BoxesAreWalked(boxes: seq<Box>, first: bool)
    requires WellFramed(boxes)
    requires first ==> boxes != [] && boxes[0].IsFileType()
    ensures Walk(BoxesToBytes(boxes), first)
    decreases |boxes|
  {
    hide Box.Framed, Box.ToBytes, HasBox, BoxAt, AfterBox;
    if boxes != [] {
      var b, tail := boxes[0], boxes[1..];
      NonemptyBoxes(tail);
      assert forall k :: 0 <= k < |tail| ==> tail[k] == boxes[k + 1] && boxes[k + 1].Framed(k + 1 == |boxes| - 1);
      BoxReadsBack(b, BoxesToBytes(tail));
      BoxesAreWalked(tail, false);
    }
  }

  lemma NonemptyBoxes(boxes: seq<Box>)
    requires forall k | 0 <= k < |boxes| :: boxes[k].Framed(k == |boxes| - 1)
    ensures BoxesToBytes(boxes) == [] <==> boxes == []
  {
    if boxes != [] {
      assert |boxes[0].ToBytes()| >= 8;
    }
  }

  lemma {:induction false} WalkedAreBoxes(s: Buffer, first: bool) returns (boxes: seq<Box>)
    requires Walk(s, first)
    ensures WellFramed(boxes) && s == BoxesToBytes(boxes)
    ensures first ==> boxes != [] && boxes[0].IsFileType()
    decreases |s|
  {
    hide Box.Framed, Box.ToBytes, HasBox, BoxAt, AfterBox;
    boxes := [];
    if s != [] {
      BoxSplits(s);
      var tail := WalkedAreBoxes(AfterBox(s), false);
      boxes := [BoxAt(s)] + tail;
      assert boxes[1..] == tail;
      NonemptyBoxes(tail);
    }
  }

  lemma WalkAcceptsExactlyMp4(bytes: Buffer)
    ensures Walk(bytes, true) <==> IsMp4(bytes)
  {
    hide Walk, WellFramed;
    if Walk(bytes, true) {
      var boxes := WalkedAreBoxes(bytes, true);
    }
    if IsMp4(bytes) {
      var boxes: seq<Box> :| boxes != [] && WellFramed(boxes) && boxes[0].IsFileType() && bytes == BoxesToBytes(boxes);
      BoxesAreWalked(boxes, true);
    }
  }

  lemma BoxAhead(bytes: Buffer, offset: nat)
    requires offset + 8 <= |bytes|
    ensures U32BE(bytes[offset..], 0) == U32BE(bytes, offset)
    ensures offset + 16 <= |bytes| ==> U64BE(bytes[offset..], 8) == U64BE(bytes, offset + 8)
    ensures HasBox(bytes[offset..]) ==>
              && Ascii(BoxAt(bytes[offset..]).typeField) == Ascii(bytes[offset + 4..offset + 8])
              && |BoxAt(bytes[offset..]).payload| == BoxSize(bytes[offset..]) - HeaderSize(bytes[offset..])
              && AfterBox(bytes[offset..]) == bytes[offset + BoxSize(bytes[offset..])..]
  {
    assert bytes[offset..][4..8] == bytes[offset + 4..offset + 8];
  }

  /** `validMp4`: true exactly for a file-type box followed by boxes that fill the file. */
  method ValidMp4(bytes: Buffer) returns (ok: bool)
    ensures ok <==> IsMp4(bytes)
  {
    hide IsMp4, U32BE, U64BE, Ascii, BoxAt, AfterBox;
    WalkAcceptsExactlyMp4(bytes);
    var offset := 0;
    var boxCount := 0;
    while offset + 8 <= |bytes|
      invariant offset <= |bytes|
      invariant boxCount > 0 <==> offset > 0
      invariant IsMp4(bytes) == Walk(bytes[offset..], boxCount == 0)
      decreases |bytes| - offset
    {
      BoxAhead(bytes, offset);
      var size := U32BE(bytes, offset);
      var boxType := Ascii(bytes[offset + 4..offset + 8]);
      var headerSize := 8;
      if size == 1 {
        if offset + 16 > |bytes| {
          return false;
        }
        var largeSize := U64BE(bytes, offset + 8);
        if largeSize > MAX_SAFE_INTEGER {
          return false;
        }
        size := largeSize;
        headerSize := 16;
      } else if size == 0 {
        size := |bytes| - offset;
      }
      if size < headerSize || offset + size > |bytes| {
        return false;
      }
      if boxCount == 0 {
        if boxType != FTYP || size < headerSize + 8 {
          return false;
        }
        if (size - headerSize - 8) % 4 != 0 {
          return false;
        }
      }
      boxCount := boxCount + 1;
      offset := offset + size;
    }
    ok := boxCount > 0 && offset == |bytes|;
  }
}
