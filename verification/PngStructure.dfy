/**
 The chunk walk of scripts/lib/png-structure.ts against the chunk grammar of the
 W3C PNG Specification (Second Edition), sections 5.3, 5.5 and 5.6.
 */
module PngStructure {
  import opened Bytes
  import Crc32

  const SIGNATURE: Buffer := [137, 80, 78, 71, 13, 10, 26, 10]
  const IHDR: Buffer := [0x49, 0x48, 0x44, 0x52]
  const IDAT: Buffer := [0x49, 0x44, 0x41, 0x54]
  const IEND: Buffer := [0x49, 0x45, 0x4E, 0x44]

  // ----- the grammar

  datatype Chunk = Chunk(lengthField: Buffer, typeField: Buffer, data: Buffer, crcField: Buffer) {
    /** Chunk types are compared after the top bit of each byte is cleared; the CRC covers the raw bytes. */
    function Name(): Buffer {
      Ascii(typeField)
    }

    /** The fields have their sizes, whatever the checksum. */
    predicate Sized() {
      && |lengthField| == |typeField| == |crcField| == 4
      && U32BE(lengthField, 0) == |data|
    }

    predicate Framed() {
      && Sized()
      && U32BE(crcField, 0) == Crc32.Crc(typeField + data) as int
    }

    predicate IsHeader() {
      Name() == IHDR && |data| == 13 && U32BE(data, 0) != 0 && U32BE(data, 4) != 0
    }

    predicate IsImageData() {
      Name() == IDAT && data != []
    }

    predicate IsEnd() {
      Name() == IEND && data == []
    }

    predicate IsAncillary() {
      Name() != IHDR && Name() != IDAT && Name() != IEND
    }

    function ToBytes(): Buffer {
      lengthField + typeField + data + crcField
    }
  }

  function ChunksToBytes(chunks: seq<Chunk>): Buffer {
    if chunks == [] then [] else chunks[0].ToBytes() + ChunksToBytes(chunks[1..])
  }

  /**
   The chunks of a PNG file: one header, a run of nonempty image data at [first, last)
   with no other chunk inside it, ancillary chunks around the run, and an empty end chunk.
   */
  predicate WellFormed(chunks: seq<Chunk>, first: nat, last: nat) {
    && 1 <= first < last < |chunks|
    && (forall c | c in chunks :: c.Framed())
    && chunks[0].IsHeader()
    && (forall k | 1 <= k < |chunks| - 1 ::
          if first <= k < last then chunks[k].IsImageData() else chunks[k].IsAncillary())
    && chunks[|chunks| - 1].IsEnd()
  }

  /** The file is the signature followed by well-formed chunks, with nothing after them. */
  ghost predicate IsPng(bytes: Buffer) {
    exists chunks, first, last :: WellFormed(chunks, first, last) && bytes == SIGNATURE + ChunksToBytes(chunks)
  }

  // ----- the walk, on the bytes still ahead

  /** The flags of the walk. */
  datatype Flags = Flags(sawHeader: bool, sawImageData: bool, imageDataEnded: bool)

  const START := Flags(false, false, false)

  /** The chunk at the front of `s`, when its declared length fits. */
  predicate HasChunk(s: Buffer) {
    |s| >= 12 && 12 + U32BE(s, 0) <= |s|
  }

  function ChunkAt(s: Buffer): Chunk
    requires HasChunk(s)
  {
    var n := U32BE(s, 0);
    Chunk(s[..4], s[4..8], s[8..8 + n], s[8 + n..12 + n])
  }

  function Rest(s: Buffer): (rest: Buffer)
    requires HasChunk(s)
    ensures |rest| < |s|
    ensures s == ChunkAt(s).ToBytes() + rest
  {
    s[12 + U32BE(s, 0)..]
  }

  /** What the loop body decides about one chunk: reject it, or go on with new flags. */
  datatype Admission = Admission(admitted: bool, flags: Flags)

  function Admit(c: Chunk, f: Flags): Admission {
    var name := c.Name();
    Admission(
      && (if f.sawHeader then name != IHDR else c.IsHeader())
      && (name == IDAT ==> c.data != [] && !f.imageDataEnded),
      Flags(true,
            f.sawImageData || name == IDAT,
            f.imageDataEnded || (f.sawImageData && name != IDAT && name != IEND)))
  }

  function Walk(s: Buffer, f: Flags): bool
    decreases |s|
  {
    if !HasChunk(s) then false
    else
      var c := ChunkAt(s);
      var next := Admit(c, f);
      if !c.Framed() || !next.admitted then false
      else if c.Name() == IEND then c.data == [] && next.flags.sawImageData && Rest(s) == []
      else Walk(Rest(s), next.flags)
  }

  /** The slices the loop takes at `offset` are the fields of the chunk ahead. */
  lemma ChunkAhead(bytes: Buffer, offset: nat)
    requires offset + 12 <= |bytes|
    ensures HasChunk(bytes[offset..]) <==> offset + 12 + U32BE(bytes, offset) <= |bytes|
    ensures var n := U32BE(bytes, offset);
            offset + 12 + n <= |bytes| ==>
              && ChunkAt(bytes[offset..]) == Chunk(bytes[offset..offset + 4], bytes[offset + 4..offset + 8],
                                                   bytes[offset + 8..offset + 8 + n],
                                                   bytes[offset + 8 + n..offset + 12 + n])
              && Rest(bytes[offset..]) == bytes[offset + 12 + n..]
              && U32BE(bytes[offset..offset + 4], 0) == n
              && U32BE(bytes[offset + 8 + n..offset + 12 + n], 0) == U32BE(bytes, offset + 8 + n)
  {
    hide U32BE;
    FieldAt(bytes, offset, bytes[offset..], 0);
    FieldAt(bytes, offset, bytes[offset..offset + 4], 0);
    var n := U32BE(bytes, offset);
    if offset + 12 + n <= |bytes| {
      FieldAt(bytes, offset + 8 + n, bytes[offset + 8 + n..offset + 12 + n], 0);
      PartsAhead(bytes, offset, n);
    }
  }

  lemma PartsAhead(bytes: Buffer, offset: nat, n: nat)
    requires offset + 12 + n <= |bytes|
    ensures var s := bytes[offset..];
            && s[..4] == bytes[offset..offset + 4]
            && s[4..8] == bytes[offset + 4..offset + 8]
            && s[8..8 + n] == bytes[offset + 8..offset + 8 + n]
            && s[8 + n..12 + n] == bytes[offset + 8 + n..offset + 12 + n]
            && s[12 + n..] == bytes[offset + 12 + n..]
  {
    SliceOfTail(bytes, offset, 0, 4);
    SliceOfTail(bytes, offset, 4, 8);
    SliceOfTail(bytes, offset, 8, 8 + n);
    SliceOfTail(bytes, offset, 8 + n, 12 + n);
  }

  lemma FieldAt(s: Buffer, i: nat, t: Buffer, j: nat)
    requires i + 4 <= |s| && j + 4 <= |t|
    requires s[i] == t[j] && s[i + 1] == t[j + 1] && s[i + 2] == t[j + 2] && s[i + 3] == t[j + 3]
    ensures U32BE(s, i) == U32BE(t, j)
  {
  }

  lemma SliceOfTail(s: Buffer, offset: nat, from: nat, to: nat)
    requires from <= to && offset + to <= |s|
    ensures s[offset..][from..to] == s[offset + from..offset + to]
  {
  }

  lemma FramedByCrc(c: Chunk, crc: nat)
    requires |c.lengthField| == |c.typeField| == |c.crcField| == 4
    requires U32BE(c.lengthField, 0) == |c.data| && crc == Crc32.Crc(c.typeField + c.data) as int
    ensures c.Framed() <==> U32BE(c.crcField, 0) == crc
  {
  }

  lemma ConcatTwo(a: Buffer, b: Buffer)
    ensures Concat([a, b]) == a + b
  {
    assert [a, b][1..] == [b];
    assert Concat([b]) == b + [];
  }

  /** `isStructurallyValidPng`: true exactly for the files of the grammar. */
  method IsStructurallyValidPng(bytes: Buffer) returns (ok: bool)
    requires |bytes| <= MAX_SAFE_INTEGER
    ensures ok <==> IsPng(bytes)
  {
    hide Crc32.Crc, ChunkAt, Rest, IsPng, U32BE, Ascii, Concat, Chunk.Framed;
    WalkAcceptsExactlyPng(bytes);
    if |bytes| < |SIGNATURE| || bytes[..|SIGNATURE|] != SIGNATURE {
      return false;
    }
    var offset := |SIGNATURE|;
    var sawHeader, sawImageData, imageDataEnded := false, false, false;
    while offset + 12 <= |bytes|
      invariant 8 <= offset <= |bytes|
      invariant IsPng(bytes) == Walk(bytes[offset..], Flags(sawHeader, sawImageData, imageDataEnded))
      decreases |bytes| - offset
    {
      ChunkAhead(bytes, offset);
      var length := U32BE(bytes, offset);
      var chunkEnd := offset + 12 + length;
      if chunkEnd > MAX_SAFE_INTEGER || chunkEnd > |bytes| {
        return false;
      }
      var chunkTypeBytes := bytes[offset + 4..offset + 8];
      var chunkType := Ascii(chunkTypeBytes);
      var chunkData := bytes[offset + 8..offset + 8 + length];
      ConcatTwo(chunkTypeBytes, chunkData);
      var crc := Crc32.Crc32([chunkTypeBytes, chunkData]);
      ghost var c := ChunkAt(bytes[offset..]);
      FramedByCrc(c, crc);
      if U32BE(bytes, offset + 8 + length) != crc {
        return false;
      }
      if !sawHeader {
        if chunkType != IHDR || length != 13 {
          return false;
        }
        if U32BE(chunkData, 0) == 0 || U32BE(chunkData, 4) == 0 {
          return false;
        }
        sawHeader := true;
      } else if chunkType == IHDR {
        return false;
      }
      if chunkType == IDAT {
        if length == 0 || imageDataEnded {
          return false;
        }
        sawImageData := true;
      } else if sawImageData && chunkType != IEND {
        imageDataEnded := true;
      }
      if chunkType == IEND {
        return length == 0 && sawHeader && sawImageData && chunkEnd == |bytes|;
      }
      offset := chunkEnd;
    }
    return false;
  }

  // ----- soundness and completeness of the walk

  /** A framed chunk in front is read back as itself. */
  lemma FramedIsSized(c: Chunk)
    requires c.Framed()
    ensures c.Sized()
  {
  }

  lemma ReadsBack(c: Chunk, rest: Buffer)
    requires c.Sized()
    ensures HasChunk(c.ToBytes() + rest)
    ensures ChunkAt(c.ToBytes() + rest) == c
    ensures Rest(c.ToBytes() + rest) == rest
  {
    var s := c.ToBytes() + rest;
    assert s[..4] == c.lengthField;
    assert U32BE(s, 0) == U32BE(c.lengthField, 0);
    assert s[4..8] == c.typeField;
    assert s[8..8 + |c.data|] == c.data;
    assert s[8 + |c.data|..12 + |c.data|] == c.crcField;
  }

  /** The chunks that may follow once the walk, with the header behind it, has flags `f`. */
  predicate MayFollow(chunks: seq<Chunk>, first: nat, last: nat, f: Flags) {
    && f.sawHeader
    && first <= last < |chunks|
    && (forall c | c in chunks :: c.Framed())
    && (forall k | 0 <= k < |chunks| - 1 ::
          if first <= k < last then chunks[k].IsImageData() else chunks[k].IsAncillary())
    && chunks[|chunks| - 1].IsEnd()
    && (f.sawImageData ==> first == 0)
    && (!f.sawImageData ==> first < last)
    && (f.imageDataEnded ==> last == 0)
  }

  lemma {:induction false} WhatMayFollowIsWalked(chunks: seq<Chunk>, first: nat, last: nat, f: Flags)
    requires MayFollow(chunks, first, last, f)
    ensures Walk(ChunksToBytes(chunks), f)
    decreases |chunks|
  {
    hide Crc32.Crc, ChunkAt;
    FramedIsSized(chunks[0]);
    ReadsBack(chunks[0], ChunksToBytes(chunks[1..]));
    if |chunks| > 1 {
      WhatMayFollowIsWalked(chunks[1..], if first > 0 then first - 1 else 0, if last > 0 then last - 1 else 0,
                            Admit(chunks[0], f).flags);
    }
  }

  /** Putting an admitted chunk in front of what may follow it. */
  lemma Prepend(c: Chunk, tail: seq<Chunk>, first: nat, last: nat, f: Flags) returns (first': nat, last': nat)
    requires f.sawHeader && (f.imageDataEnded ==> f.sawImageData)
    requires c.Framed() && c.Name() != IEND && Admit(c, f).admitted
    requires MayFollow(tail, first, last, Admit(c, f).flags)
    ensures MayFollow([c] + tail, first', last', f)
  {
    hide Chunk.Framed;
    var chunks := [c] + tail;
    first', last' := if f.sawImageData || c.Name() == IDAT then 0 else first + 1,
                     if f.imageDataEnded || Admit(c, f).flags.imageDataEnded then 0 else last + 1;
    forall k | 0 <= k < |chunks| - 1
      ensures if first' <= k < last' then chunks[k].IsImageData() else chunks[k].IsAncillary()
    {
      if k > 0 {
        assert chunks[k] == tail[k - 1];
      }
    }
    assert chunks[|chunks| - 1] == tail[|tail| - 1];
  }

  lemma {:induction false} WhatIsWalkedMayFollow(s: Buffer, f: Flags)
    returns (chunks: seq<Chunk>, first: nat, last: nat)
    requires Walk(s, f) && f.sawHeader && (f.imageDataEnded ==> f.sawImageData)
    ensures MayFollow(chunks, first, last, f)
    ensures s == ChunksToBytes(chunks)
    decreases |s|
  {
    hide Chunk.Framed, ChunkAt;
    var c := ChunkAt(s);
    if c.Name() == IEND {
      chunks, first, last := [c], 0, 0;
    } else {
      var tail;
      tail, first, last := WhatIsWalkedMayFollow(Rest(s), Admit(c, f).flags);
      first, last := Prepend(c, tail, first, last, f);
      chunks := [c] + tail;
      assert chunks[1..] == tail;
    }
  }

  lemma WalkedIsPng(s: Buffer) returns (chunks: seq<Chunk>, first: nat, last: nat)
    requires Walk(s, START)
    ensures WellFormed(chunks, first, last) && s == ChunksToBytes(chunks)
  {
    hide Chunk.Framed, ChunkAt, Chunk.ToBytes, MayFollow, WellFormed;
    var c := ChunkAt(s);
    var tail;
    tail, first, last := WhatIsWalkedMayFollow(Rest(s), Admit(c, START).flags);
    PrependHeader(c, tail, first, last);
    chunks, first, last := [c] + tail, first + 1, last + 1;
    assert chunks[1..] == tail;
  }

  lemma PrependHeader(c: Chunk, tail: seq<Chunk>, first: nat, last: nat)
    requires c.Framed() && Admit(c, START).admitted && MayFollow(tail, first, last, Admit(c, START).flags)
    ensures WellFormed([c] + tail, first + 1, last + 1)
  {
    hide Chunk.Framed;
    var chunks := [c] + tail;
    forall k | 1 <= k < |chunks| - 1
      ensures if first + 1 <= k < last + 1 then chunks[k].IsImageData() else chunks[k].IsAncillary()
    {
      assert chunks[k] == tail[k - 1];
    }
    assert chunks[|chunks| - 1] == tail[|tail| - 1];
  }

  lemma PngIsWalked(chunks: seq<Chunk>, first: nat, last: nat)
    requires WellFormed(chunks, first, last)
    ensures Walk(ChunksToBytes(chunks), START)
  {
    hide Crc32.Crc, U32BE;
    FramedIsSized(chunks[0]);
    ReadsBack(chunks[0], ChunksToBytes(chunks[1..]));
    WhatMayFollowIsWalked(chunks[1..], first - 1, last - 1, Admit(chunks[0], START).flags);
  }

  lemma WalkAcceptsExactlyPng(bytes: Buffer)
    ensures IsPng(bytes) <==> |bytes| >= 8 && bytes[..8] == SIGNATURE && Walk(bytes[8..], START)
  {
    hide Walk, WellFormed, ChunksToBytes;
    if |bytes| >= 8 && bytes[..8] == SIGNATURE && Walk(bytes[8..], START) {
      var chunks, first, last := WalkedIsPng(bytes[8..]);
      assert bytes == SIGNATURE + bytes[8..];
    }
    if IsPng(bytes) {
      var chunks, first, last :| WellFormed(chunks, first, last) && bytes == SIGNATURE + ChunksToBytes(chunks);
      PngIsWalked(chunks, first, last);
      assert bytes[8..] == ChunksToBytes(chunks);
    }
  }

  // ----- tampering

  /** Byte `i` of the chunk stream `s` lies in the length field of one of its chunks. */
  predicate InLengthField(s: Buffer, i: nat)
    decreases |s|
  {
    && HasChunk(s)
    && var end := 12 + U32BE(s, 0);
       if i < end then i < 4 else InLengthField(s[end..], i - end)
  }

  lemma SameLength(s: Buffer, t: Buffer)
    requires |s| == |t| >= 4 && s[..4] == t[..4]
    ensures U32BE(s, 0) == U32BE(t, 0)
  {
    assert forall k :: 0 <= k < 4 ==> s[k] == s[..4][k] && t[k] == t[..4][k];
  }

  /** A changed type or data byte, against the same checksum. */
  lemma BrokenBody(c: Chunk, d: Chunk, k: nat, b: Byte)
    requires c.Framed() && d.crcField == c.crcField
    requires k < |c.typeField + c.data| && b != (c.typeField + c.data)[k]
    requires d.typeField + d.data == (c.typeField + c.data)[k := b]
    ensures !d.Framed()
  {
    hide U32BE, Crc32.Crc;
    var body := c.typeField + c.data;
    Crc32.OneByteIsDetected(body, k, b);
    if d.Framed() {
      Crc32.EqualAsIntegers(Crc32.Crc(body), Crc32.Crc(d.typeField + d.data));
    }
  }

  /** A changed checksum byte, against the same type and data. */
  lemma BrokenChecksum(c: Chunk, d: Chunk)
    requires c.Framed() && d.typeField + d.data == c.typeField + c.data && d.crcField != c.crcField
    ensures !d.Framed()
  {
    hide U32BE, Crc32.Crc;
    if d.Framed() {
      FieldIsInjective(c.crcField, d.crcField);
    }
  }

  lemma BrokenChunk(s: Buffer, i: nat, b: Byte, f: Flags)
    requires HasChunk(s) && ChunkAt(s).Framed()
    requires 4 <= i < 12 + U32BE(s, 0) && b != s[i]
    ensures !Walk(s[i := b], f)
  {
    hide Chunk.Framed, U32BE;
    var t := s[i := b];
    SameLength(s, t);
    var n := U32BE(s, 0);
    var c, d := ChunkAt(s), ChunkAt(t);
    var body, changed := c.typeField + c.data, d.typeField + d.data;
    if i < 8 + n {
      assert changed == body[i - 4 := b];
      BrokenBody(c, d, i - 4, b);
    } else {
      assert changed == body;
      assert d.crcField[i - 8 - n] == b && c.crcField[i - 8 - n] == s[i];
      BrokenChecksum(c, d);
    }
  }

  lemma {:induction false} TamperedWalk(s: Buffer, i: nat, b: Byte, f: Flags)
    requires Walk(s, f) && i < |s| && b != s[i] && !InLengthField(s, i)
    ensures !Walk(s[i := b], f)
    decreases |s|
  {
    hide Chunk.Framed, Admit, U32BE;
    var end := 12 + U32BE(s, 0);
    if i < end {
      BrokenChunk(s, i, b, f);
    } else {
      var t := s[i := b];
      SameLength(s, t);
      assert ChunkAt(t) == ChunkAt(s);
      assert t[end..] == s[end..][i - end := b];
      TamperedWalk(s[end..], i - end, b, Admit(ChunkAt(s), f).flags);
    }
  }

  /** Changing any one byte of an accepted file, other than a chunk-length byte, makes it rejected. */
  lemma OneByteTamperIsRejected(bytes: Buffer, i: nat, b: Byte)
    requires IsPng(bytes) && i < |bytes| && b != bytes[i]
    requires i < 8 || !InLengthField(bytes[8..], i - 8)
    ensures !IsPng(bytes[i := b])
  {
    var t := bytes[i := b];
    WalkAcceptsExactlyPng(bytes);
    WalkAcceptsExactlyPng(t);
    if i < 8 {
      assert t[..8][i] == b;
    } else {
      assert t[8..] == bytes[8..][i - 8 := b];
      TamperedWalk(bytes[8..], i - 8, b, START);
    }
  }
}
