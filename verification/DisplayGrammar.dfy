/**
 The chunk lists that `inspectPng` of scripts/testbed/display-evidence.ts reads, as a
 grammar, and what a list that it reads still needs to be a valid PNG file.
 */
module DisplayGrammar {
  import opened Bytes
  import opened PngStructure
  import opened DisplayEvidence
  import opened Wrappers

  // ----- the grammar

  predicate AllSized(chunks: seq<Chunk>) {
    forall k | 0 <= k < |chunks| :: chunks[k].Sized()
  }

  /** An end chunk, if there is one, is empty and the last. */
  predicate EndsAtEnd(chunks: seq<Chunk>) {
    forall k | 0 <= k < |chunks| :: chunks[k].Name() == IEND ==> k == |chunks| - 1 && chunks[k].data == []
  }

  predicate HeadersSupported(chunks: seq<Chunk>) {
    forall k | 0 <= k < |chunks| :: chunks[k].Name() == IHDR ==> SupportedHeader(chunks[k].data)
  }

  predicate IsHeaderOfWidth(c: Chunk, width: nat) {
    c.Name() == IHDR && SupportedHeader(c.data) && U32BE(c.data, 0) == width
  }

  /** A header is followed by another one only when its width is zero. */
  predicate OnlyEmptyHeadersRepeat(chunks: seq<Chunk>) {
    forall j, k | 0 <= j < k < |chunks| :: chunks[k].Name() == IHDR && chunks[j].Name() == IHDR ==> IsHeaderOfWidth(chunks[j], 0)
  }

  /** The data of the last header. */
  function LastHeader(chunks: seq<Chunk>): (data: Option<Buffer>)
    ensures data.None? <==> forall k | 0 <= k < |chunks| :: chunks[k].Name() != IHDR
    ensures data.Some? && HeadersSupported(chunks) ==> SupportedHeader(data.value)
  {
    if chunks == [] then None
    else
      var n := |chunks| - 1;
      assert HeadersSupported(chunks) ==> HeadersSupported(chunks[..n]);
      if chunks[n].Name() == IHDR then Some(chunks[n].data) else LastHeader(chunks[..n])
  }

  /** What is found in chunks, behind what was found before them. */
  function FoundIn(chunks: seq<Chunk>, before: Found): Found
    requires HeadersSupported(chunks)
  {
    var idat, header := before.idat + ImageData(chunks), LastHeader(chunks);
    if header.None? then before.(idat := idat)
    else Found(U32BE(header.value, 0), U32BE(header.value, 4), header.value[9], idat)
  }

  /** Chunks of their declared lengths with any checksums, and an end at the last empty IEND or at the end of the bytes. */
  predicate IsReading(chunks: seq<Chunk>, found: Found) {
    && AllSized(chunks) && EndsAtEnd(chunks) && HeadersSupported(chunks) && OnlyEmptyHeadersRepeat(chunks)
    && found == FoundIn(chunks, NOTHING)
  }

  // ----- the walk, one chunk at a time

  /** Taking in one chunk; None when it is refused. */
  function Take(c: Chunk, found: Found): Option<Found> {
    if c.Name() == IHDR then
      if found.width != 0 || !SupportedHeader(c.data) then None
      else Some(found.(width := U32BE(c.data, 0), height := U32BE(c.data, 4), colorType := c.data[9]))
    else if c.Name() == IDAT then Some(found.(idat := found.idat + c.data))
    else if c.Name() == IEND && c.data != [] then None
    else Some(found)
  }

  predicate MayPrecede(c: Chunk, rest: Buffer) {
    c.Name() == IEND ==> rest == []
  }

  lemma ReadOne(s: Buffer, found: Found)
    requires s != []
    ensures ReadChunks(s, found).Ok? ==>
              HasChunk(s) && Take(ChunkAt(s), found).Some? && MayPrecede(ChunkAt(s), Rest(s))
    ensures HasChunk(s) && Take(ChunkAt(s), found).Some? && MayPrecede(ChunkAt(s), Rest(s)) ==>
              ReadChunks(s, found) == ReadChunks(Rest(s), Take(ChunkAt(s), found).value)
  {
    hide ChunkAt, Rest, U32BE, Chunk.Name, SupportedHeader;
    assert ReadChunks([], found) == Ok(found);
  }

  lemma SizedAt(s: Buffer)
    requires HasChunk(s)
    ensures ChunkAt(s).Sized()
  {
    assert U32BE(s[..4], 0) == U32BE(s, 0);
  }

  lemma SizedIsNonempty(c: Chunk)
    requires c.Sized()
    ensures |c.ToBytes()| >= 12
  {
  }

  /** Before anything else, `found` allows these chunks: no header behind a header that has a width. */
  predicate Allows(before: Found, chunks: seq<Chunk>) {
    before.width != 0 ==> LastHeader(chunks).None?
  }

  predicate Continues(chunks: seq<Chunk>, before: Found, after: Found) {
    && AllSized(chunks) && EndsAtEnd(chunks) && HeadersSupported(chunks) && OnlyEmptyHeadersRepeat(chunks)
    && Allows(before, chunks) && after == FoundIn(chunks, before)
  }

  lemma NothingContinues(before: Found, after: Found)
    ensures Continues([], before, after) <==> after == before
    ensures ReadChunks([], before) == Ok(before)
  {
    assert before.idat + [] == before.idat;
  }

  lemma {:induction false} LastHeaderOf(c: Chunk, rest: seq<Chunk>)
    ensures LastHeader([c] + rest)
         == if LastHeader(rest).Some? then LastHeader(rest) else if c.Name() == IHDR then Some(c.data) else None
  {
    hide Chunk.Name;
    var chunks := [c] + rest;
    if rest == [] {
      assert chunks[..0] == [] && chunks[0] == c;
    } else {
      var n := |rest| - 1;
      assert chunks[..|chunks| - 1] == [c] + rest[..n];
      LastHeaderOf(c, rest[..n]);
    }
  }

  lemma PrefixPredicates(c: Chunk, rest: seq<Chunk>)
    ensures AllSized([c] + rest) <==> c.Sized() && AllSized(rest)
    ensures EndsAtEnd([c] + rest) <==> (c.Name() == IEND ==> rest == [] && c.data == []) && EndsAtEnd(rest)
    ensures HeadersSupported([c] + rest) <==> (c.Name() == IHDR ==> SupportedHeader(c.data)) && HeadersSupported(rest)
  {
    hide Chunk.Name, Chunk.Sized, SupportedHeader;
    var chunks := [c] + rest;
    assert chunks[0] == c && forall k | 0 <= k < |rest| :: chunks[k + 1] == rest[k];
  }

  lemma PrefixHeaders(c: Chunk, rest: seq<Chunk>)
    ensures OnlyEmptyHeadersRepeat([c] + rest)
       <==> (c.Name() == IHDR && LastHeader(rest).Some? ==> IsHeaderOfWidth(c, 0)) && OnlyEmptyHeadersRepeat(rest)
  {
    hide Chunk.Name, IsHeaderOfWidth;
    var chunks := [c] + rest;
    assert chunks[0] == c && forall k | 0 <= k < |rest| :: chunks[k + 1] == rest[k];
    if OnlyEmptyHeadersRepeat(chunks) && c.Name() == IHDR && LastHeader(rest).Some? {
      var k :| 0 <= k < |rest| && rest[k].Name() == IHDR;
      assert chunks[k + 1].Name() == IHDR;
    }
    if OnlyEmptyHeadersRepeat(chunks) {
      forall j, k | 0 <= j < k < |rest| && rest[k].Name() == IHDR && rest[j].Name() == IHDR
        ensures IsHeaderOfWidth(rest[j], 0)
      {
        assert chunks[j + 1] == rest[j] && chunks[k + 1] == rest[k];
      }
    }
  }

  lemma ContinuesOne(c: Chunk, rest: seq<Chunk>, before: Found, after: Found)
    ensures Continues([c] + rest, before, after)
       <==> c.Sized() && Take(c, before).Some? && (c.Name() == IEND ==> rest == []) && Continues(rest, Take(c, before).value, after)
  {
    hide Chunk.Name, Chunk.Sized, SupportedHeader, U32BE, AllSized, EndsAtEnd, HeadersSupported, OnlyEmptyHeadersRepeat, FoundIn;
    PrefixPredicates(c, rest);
    PrefixHeaders(c, rest);
    LastHeaderOf(c, rest);
    if HeadersSupported([c] + rest) && Take(c, before).Some? {
      FoundInOne(c, rest, before);
    }
    assert IHDR != IDAT && IHDR != IEND && IDAT != IEND;
  }

  lemma FoundInOne(c: Chunk, rest: seq<Chunk>, before: Found)
    requires HeadersSupported([c] + rest) && HeadersSupported(rest) && Take(c, before).Some?
    ensures FoundIn([c] + rest, before) == FoundIn(rest, Take(c, before).value)
  {
    hide Chunk.Name, SupportedHeader, U32BE, HeadersSupported, ImageData, LastHeader;
    LastHeaderOf(c, rest);
    JoinsOne(c, rest, before.idat);
    assert IHDR != IDAT && IHDR != IEND && IDAT != IEND;
  }

  lemma JoinsOne(c: Chunk, rest: seq<Chunk>, idat: Buffer)
    ensures idat + ImageData([c] + rest) == (if c.Name() == IDAT then idat + c.data else idat) + ImageData(rest)
  {
    hide Chunk.Name;
    assert ([c] + rest)[1..] == rest;
    assert idat + c.data + ImageData(rest) == idat + (c.data + ImageData(rest));
    assert [] + ImageData(rest) == ImageData(rest);
  }

  lemma {:induction false} GrammarIsRead(chunks: seq<Chunk>, before: Found, after: Found)
    requires Continues(chunks, before, after)
    ensures ReadChunks(ChunksToBytes(chunks), before) == Ok(after)
    decreases |chunks|
  {
    hide Take, Chunk.ToBytes, Chunk.Sized, Chunk.Name, ChunkAt, HasChunk, Rest, ReadChunks, Continues;
    if chunks == [] {
      NothingContinues(before, after);
    } else {
      var c, rest := chunks[0], chunks[1..];
      assert chunks == [c] + rest;
      ContinuesOne(c, rest, before, after);
      ReadsBack(c, ChunksToBytes(rest));
      SizedIsNonempty(c);
      ReadOne(ChunksToBytes(chunks), before);
      GrammarIsRead(rest, Take(c, before).value, after);
    }
  }

  lemma {:induction false} ReadIsGrammar(s: Buffer, before: Found) returns (chunks: seq<Chunk>)
    requires ReadChunks(s, before).Ok?
    ensures ChunksToBytes(chunks) == s && Continues(chunks, before, ReadChunks(s, before).value)
    decreases |s|
  {
    hide Take, Chunk.ToBytes, Chunk.Sized, Chunk.Name, ChunkAt, HasChunk, Rest, ReadChunks, Continues;
    chunks := [];
    if s == [] {
      NothingContinues(before, before);
    } else {
      ReadOne(s, before);
      SizedAt(s);
      var c := ChunkAt(s);
      var rest := ReadIsGrammar(Rest(s), Take(c, before).value);
      chunks := [c] + rest;
      assert chunks[1..] == rest;
      NoBytesNoChunks(rest, Take(c, before).value, ReadChunks(s, before).value);
      ContinuesOne(c, rest, before, ReadChunks(s, before).value);
    }
  }

  lemma NoBytesNoChunks(chunks: seq<Chunk>, before: Found, after: Found)
    requires Continues(chunks, before, after)
    ensures ChunksToBytes(chunks) == [] <==> chunks == []
  {
    hide Chunk.Sized, Chunk.ToBytes, HeadersSupported, EndsAtEnd, OnlyEmptyHeadersRepeat, Allows, FoundIn;
    if chunks != [] {
      SizedIsNonempty(chunks[0]);
    }
  }

  ghost predicate IsReadable(s: Buffer, found: Found) {
    exists chunks :: IsReading(chunks, found) && s == ChunksToBytes(chunks)
  }

  /** The walk finds `found` exactly in the bytes that the grammar describes as holding it. */
  lemma WalkReadsExactly(s: Buffer, found: Found)
    ensures ReadChunks(s, NOTHING) == Ok(found) <==> IsReadable(s, found)
  {
    hide ReadChunks, ChunksToBytes, AllSized, EndsAtEnd, HeadersSupported, OnlyEmptyHeadersRepeat, FoundIn, LastHeader;
    if ReadChunks(s, NOTHING) == Ok(found) {
      var chunks := ReadIsGrammar(s, NOTHING);
      assert IsReading(chunks, found);
    }
    if IsReadable(s, found) {
      var chunks :| IsReading(chunks, found) && s == ChunksToBytes(chunks);
      GrammarIsRead(chunks, NOTHING, found);
    }
  }

  // ----- what the walk does not look at

  /** One turn of the walk, on a chunk and the bytes behind it. */
  function Turn(c: Chunk, rest: Buffer, found: Found): Result<Found> {
    if Take(c, found).None? then Err(if c.Name() == IHDR then UnsupportedImage else InvalidEnd)
    else if !MayPrecede(c, rest) then Err(InvalidEnd)
    else ReadChunks(rest, Take(c, found).value)
  }

  lemma ReadTurn(c: Chunk, rest: Buffer, found: Found)
    requires c.Sized()
    ensures ReadChunks(c.ToBytes() + rest, found) == Turn(c, rest, found)
  {
    hide ChunkAt, Rest, U32BE, Chunk.Name, SupportedHeader, Chunk.ToBytes, Chunk.Sized, HasChunk;
    ReadsBack(c, rest);
    SizedIsNonempty(c);
    assert ReadChunks([], found) == Ok(found);
    assert IHDR != IDAT && IHDR != IEND && IDAT != IEND;
  }

  /** Why the walk stops at the bytes `rest` with `found` behind it. */
  predicate StopsBefore(rest: Buffer, found: Found, error: Malformed) {
    rest != [] &&
    if !HasChunk(rest) then error == TruncatedChunk
    else
      var c := ChunkAt(rest);
      if c.Name() == IHDR then error == UnsupportedImage && (found.width != 0 || !SupportedHeader(c.data))
      else error == InvalidEnd && c.Name() == IEND && (c.data != [] || Rest(rest) != [])
  }

  /**
   A walk that fails has read chunks of the grammar, none of them an end, up to the first bytes that
   are no whole chunk, a header that is not supported or comes behind one with a width, or an end
   that is not empty or not the last; the error tells which.
   */
  lemma {:induction false} WalkStopsAt(s: Buffer, before: Found) returns (chunks: seq<Chunk>, found: Found, rest: Buffer)
    requires ReadChunks(s, before).Err?
    ensures s == ChunksToBytes(chunks) + rest && Continues(chunks, before, found)
    ensures forall k | 0 <= k < |chunks| :: chunks[k].Name() != IEND
    ensures StopsBefore(rest, found, ReadChunks(s, before).error)
    decreases |s|
  {
    hide Chunk.ToBytes, Chunk.Sized, Chunk.Name, ChunkAt, HasChunk, Rest, Continues, SupportedHeader, U32BE;
    chunks, found, rest := [], before, s;
    NothingContinues(before, before);
    if !HasChunk(s) {
      return;
    }
    var c := ChunkAt(s);
    assert IHDR != IDAT && IHDR != IEND && IDAT != IEND;
    if Take(c, before).None? || c.Name() == IEND {
      return;
    }
    SizedAt(s);
    var more;
    more, found, rest := WalkStopsAt(Rest(s), Take(c, before).value);
    chunks := [c] + more;
    ContinuesOne(c, more, before, found);
    assert chunks[1..] == more;
    assert c.ToBytes() + (ChunksToBytes(more) + rest) == (c.ToBytes() + ChunksToBytes(more)) + rest;
  }

  predicate SameNameAndData(c: Chunk, d: Chunk) {
    c.Name() == d.Name() && c.data == d.data
  }

  predicate SameContents(a: seq<Chunk>, b: seq<Chunk>) {
    |a| == |b| && forall k | 0 <= k < |a| :: SameNameAndData(a[k], b[k])
  }

  /** Chunk lists that differ in their checksums only are read alike, errors included. */
  lemma {:induction false} ChecksumsAreNotRead(a: seq<Chunk>, b: seq<Chunk>, found: Found)
    requires AllSized(a) && AllSized(b) && SameContents(a, b)
    ensures ReadChunks(ChunksToBytes(a), found) == ReadChunks(ChunksToBytes(b), found)
    decreases |a|
  {
    hide ReadChunks, Chunk.ToBytes, Chunk.Sized, Chunk.Name, SupportedHeader;
    if a != [] {
      ReadTurn(a[0], ChunksToBytes(a[1..]), found);
      ReadTurn(b[0], ChunksToBytes(b[1..]), found);
      BytesIffChunks(a[1..]);
      BytesIffChunks(b[1..]);
      assert SameNameAndData(a[0], b[0]);
      if Take(a[0], found).Some? {
        ChecksumsAreNotRead(a[1..], b[1..], Take(a[0], found).value);
      }
    }
  }

  lemma BytesIffChunks(chunks: seq<Chunk>)
    requires AllSized(chunks)
    ensures ChunksToBytes(chunks) == [] <==> chunks == []
  {
    hide Chunk.Sized, Chunk.ToBytes;
    if chunks != [] {
      SizedIsNonempty(chunks[0]);
    }
  }

  /** Bytes have only one division into chunks. */
  lemma {:induction false} SameBytesSameChunks(a: seq<Chunk>, b: seq<Chunk>)
    requires AllSized(a) && AllSized(b) && ChunksToBytes(a) == ChunksToBytes(b)
    ensures a == b
    decreases |a|
  {
    hide Chunk.Sized, Chunk.ToBytes, ChunkAt, Rest, HasChunk;
    BytesIffChunks(a);
    BytesIffChunks(b);
    if a != [] {
      ReadsBack(a[0], ChunksToBytes(a[1..]));
      ReadsBack(b[0], ChunksToBytes(b[1..]));
      SameBytesSameChunks(a[1..], b[1..]);
      assert a == [a[0]] + a[1..] && b == [b[0]] + b[1..];
    }
  }

  /** What the walk leaves unchecked of a PNG file. */
  predicate IsComplete(chunks: seq<Chunk>) {
    && chunks != []
    && (forall k | 0 <= k < |chunks| :: chunks[k].Framed())
    && chunks[0].Name() == IHDR && (forall k | 0 < k < |chunks| :: chunks[k].Name() != IHDR)
    && chunks[|chunks| - 1].Name() == IEND
    && (forall k | 0 <= k < |chunks| :: chunks[k].Name() == IDAT ==> chunks[k].data != [])
    && Consecutive(chunks)
  }

  /** No other chunk stands between two image data chunks. */
  predicate Consecutive(chunks: seq<Chunk>) {
    forall i, j, k | 0 <= i < j < k < |chunks| :: chunks[i].Name() == IDAT && chunks[k].Name() == IDAT ==> chunks[j].Name() == IDAT
  }

  /** The file has a size and image data, the further demands of the inspection. */
  predicate HasImage(found: Found) {
    found.width != 0 && found.height != 0 && found.idat != []
  }

  /**
   A file that is read as an image is a valid PNG exactly when its checksums are right, its one
   header comes first, it ends in IEND, and its image data chunks are nonempty and consecutive.
   */
  lemma ReadFileIsPngIff(chunks: seq<Chunk>, found: Found)
    requires IsReading(chunks, found) && HasImage(found)
    ensures IsPng(SIGNATURE + ChunksToBytes(chunks)) <==> IsComplete(chunks)
  {
    hide Chunk.Sized, Chunk.Framed, Chunk.Name, ChunksToBytes, WellFormed, IsComplete, AllSized, IsReading;
    if IsPng(SIGNATURE + ChunksToBytes(chunks)) {
      var others, first, last :| WellFormed(others, first, last) && SIGNATURE + ChunksToBytes(chunks) == SIGNATURE + ChunksToBytes(others);
      assert (SIGNATURE + ChunksToBytes(chunks))[8..] == ChunksToBytes(chunks);
      assert (SIGNATURE + ChunksToBytes(others))[8..] == ChunksToBytes(others);
      WellFormedIsSized(others, first, last);
      ReadingIsSized(chunks, found);
      SameBytesSameChunks(chunks, others);
      WellFormedIsComplete(chunks, first, last);
    }
    if IsComplete(chunks) {
      var first, last := CompleteIsWellFormed(chunks, found);
    }
  }

  lemma ReadingIsSized(chunks: seq<Chunk>, found: Found)
    requires IsReading(chunks, found)
    ensures AllSized(chunks)
  {
  }

  lemma WellFormedIsSized(chunks: seq<Chunk>, first: nat, last: nat)
    requires WellFormed(chunks, first, last)
    ensures AllSized(chunks)
  {
    hide Chunk.Sized, Chunk.Framed;
    forall k | 0 <= k < |chunks|
      ensures chunks[k].Sized()
    {
      FramedIsSized(chunks[k]);
    }
  }

  lemma WellFormedIsComplete(chunks: seq<Chunk>, first: nat, last: nat)
    requires WellFormed(chunks, first, last)
    ensures IsComplete(chunks)
  {
    hide Chunk.Framed, Chunk.Name;
    assert IHDR != IDAT && IHDR != IEND && IDAT != IEND;
    forall k | 0 <= k < |chunks|
      ensures chunks[k].Name() == IDAT <==> first <= k < last
    {
    }
  }

  predicate HasImageData(chunks: seq<Chunk>) {
    exists k :: 0 <= k < |chunks| && chunks[k].Name() == IDAT
  }

  lemma {:induction false} PayloadIsImageData(chunks: seq<Chunk>)
    requires ImageData(chunks) != []
    ensures HasImageData(chunks)
  {
    hide Chunk.Name;
    if chunks[0].Name() != IDAT {
      PayloadIsImageData(chunks[1..]);
      var k :| 0 <= k < |chunks[1..]| && chunks[1..][k].Name() == IDAT;
      assert chunks[k + 1].Name() == IDAT;
    }
  }

  /** The first and the last image data chunk. */
  lemma {:induction false} ImageDataRun(chunks: seq<Chunk>) returns (first: nat, last: nat)
    requires HasImageData(chunks)
    ensures first <= last < |chunks| && chunks[first].Name() == chunks[last].Name() == IDAT
    ensures forall k | 0 <= k < |chunks| && chunks[k].Name() == IDAT :: first <= k <= last
  {
    hide Chunk.Name;
    var rest := chunks[1..];
    assert forall k | 0 < k < |chunks| :: chunks[k] == rest[k - 1];
    first, last := 0, 0;
    if HasImageData(rest) {
      first, last := ImageDataRun(rest);
      first, last := if chunks[0].Name() == IDAT then 0 else first + 1, last + 1;
    }
  }

  lemma CompleteIsWellFormed(chunks: seq<Chunk>, found: Found) returns (first: nat, last: nat)
    requires IsReading(chunks, found) && HasImage(found) && IsComplete(chunks)
    ensures WellFormed(chunks, first, last)
  {
    hide Chunk.Framed, Chunk.Sized, Chunk.Name, U32BE;
    assert IHDR != IDAT && IHDR != IEND && IDAT != IEND;
    assert [] + ImageData(chunks) == ImageData(chunks);
    PayloadIsImageData(chunks);
    first, last := ImageDataRun(chunks);
    OneHeader(chunks);
    last := last + 1;
    forall k | 1 <= k < |chunks| - 1
      ensures if first <= k < last then chunks[k].IsImageData() else chunks[k].IsAncillary()
    {
      assert first < k < last - 1 ==> chunks[k].Name() == IDAT;
    }
  }

  lemma {:induction false} OneHeader(chunks: seq<Chunk>)
    requires chunks != [] && chunks[0].Name() == IHDR && forall k | 0 < k < |chunks| :: chunks[k].Name() != IHDR
    ensures LastHeader(chunks) == Some(chunks[0].data)
  {
    hide Chunk.Name;
    if |chunks| > 1 {
      OneHeader(chunks[..|chunks| - 1]);
    }
  }

  // ----- files that are read and are not valid

  /** Any other checksum on any chunk of a valid file: the file is read alike and is valid no more. */
  lemma WrongChecksumIsRead(chunks: seq<Chunk>, first: nat, last: nat, k: nat, crc: Buffer)
    requires WellFormed(chunks, first, last) && k < |chunks| && |crc| == 4 && crc != chunks[k].crcField
    ensures var other := chunks[k := chunks[k].(crcField := crc)];
            && ReadChunks(ChunksToBytes(other), NOTHING) == ReadChunks(ChunksToBytes(chunks), NOTHING)
            && !IsPng(SIGNATURE + ChunksToBytes(other))
  {
    hide ReadChunks, ChunksToBytes, WellFormed, Chunk.Framed;
    var other := chunks[k := chunks[k].(crcField := crc)];
    WellFormedIsSized(chunks, first, last);
    assert AllSized(other) && SameContents(chunks, other);
    ChecksumsAreNotRead(chunks, other, NOTHING);
    FramedAt(chunks, first, last, k);
    if IsPng(SIGNATURE + ChunksToBytes(other)) {
      var valid, f, l :| WellFormed(valid, f, l) && SIGNATURE + ChunksToBytes(other) == SIGNATURE + ChunksToBytes(valid);
      assert (SIGNATURE + ChunksToBytes(other))[8..] == ChunksToBytes(other);
      assert (SIGNATURE + ChunksToBytes(valid))[8..] == ChunksToBytes(valid);
      WellFormedIsSized(valid, f, l);
      SameBytesSameChunks(other, valid);
      FramedAt(valid, f, l, k);
      SameChecksum(chunks[k], other[k]);
    }
  }

  lemma FramedAt(chunks: seq<Chunk>, first: nat, last: nat, k: nat)
    requires WellFormed(chunks, first, last) && k < |chunks|
    ensures chunks[k].Framed()
  {
    hide Chunk.Framed;
  }

  lemma SameChecksum(c: Chunk, d: Chunk)
    requires c.Framed() && d.Framed() && c.typeField == d.typeField && c.data == d.data
    ensures c.crcField == d.crcField
  {
    hide U32BE;
    FieldIsInjective(c.crcField, d.crcField);
  }

  ghost predicate IsReadButInvalid(chunks: seq<Chunk>, found: Found) {
    && ReadChunks(ChunksToBytes(chunks), NOTHING) == Ok(found) && HasImage(found)
    && !IsPng(SIGNATURE + ChunksToBytes(chunks))
  }

  lemma ReadButIncomplete(chunks: seq<Chunk>, found: Found)
    requires IsReading(chunks, found) && HasImage(found) && !IsComplete(chunks)
    ensures IsReadButInvalid(chunks, found)
  {
    hide IsReading, IsComplete, ReadChunks, ChunksToBytes;
    assert IsReadable(ChunksToBytes(chunks), found);
    WalkReadsExactly(ChunksToBytes(chunks), found);
    ReadFileIsPngIff(chunks, found);
  }

  predicate IsSizedHeader(c: Chunk) {
    c.Sized() && c.Name() == IHDR && SupportedHeader(c.data)
  }

  predicate IsImageHeader(c: Chunk) {
    IsSizedHeader(c) && U32BE(c.data, 0) != 0 && U32BE(c.data, 4) != 0
  }

  function FoundOf(header: Chunk, idat: Buffer): Found
    requires IsSizedHeader(header)
  {
    Found(U32BE(header.data, 0), U32BE(header.data, 4), header.data[9], idat)
  }

  lemma ReadingContinues(chunks: seq<Chunk>, found: Found)
    requires Continues(chunks, NOTHING, found)
    ensures IsReading(chunks, found)
  {
    hide AllSized, EndsAtEnd, HeadersSupported, OnlyEmptyHeadersRepeat, FoundIn;
  }

  /** A file that stops behind its image data. */
  lemma MissingEndIsRead(header: Chunk, data: Chunk)
    requires IsImageHeader(header) && data.Sized() && data.IsImageData()
    ensures IsReadButInvalid([header, data], FoundOf(header, data.data))
  {
    hide Chunk.Sized, Chunk.Framed, Chunk.Name, U32BE, SupportedHeader, IsReadButInvalid, Continues, IsReading;
    var chunks, found := [header, data], FoundOf(header, data.data);
    assert IHDR != IDAT && IHDR != IEND && IDAT != IEND;
    assert chunks == [header] + [data] && [data] == [data] + [] && [] + data.data == data.data;
    NothingContinues(found, found);
    ContinuesOne(data, [], FoundOf(header, []), found);
    ContinuesOne(header, [data], NOTHING, found);
    ReadingContinues(chunks, found);
    assert chunks[1].Name() != IEND;
    ReadButIncomplete(chunks, found);
  }

  /** Another chunk between two image data chunks. */
  lemma SplitImageDataIsRead(header: Chunk, data: Chunk, other: Chunk, more: Chunk, end: Chunk)
    requires IsImageHeader(header) && data.Sized() && data.IsImageData() && more.Sized() && more.IsImageData()
    requires other.Sized() && other.IsAncillary() && end.Sized() && end.IsEnd()
    ensures IsReadButInvalid([header, data, other, more, end], FoundOf(header, data.data + more.data))
  {
    hide Chunk.Sized, Chunk.Framed, Chunk.Name, U32BE, SupportedHeader, IsReadButInvalid, Continues, IsReading;
    var chunks, found := [header, data, other, more, end], FoundOf(header, data.data + more.data);
    assert IHDR != IDAT && IHDR != IEND && IDAT != IEND;
    assert chunks == [header] + chunks[1..] && chunks[1..] == [data] + chunks[2..] && chunks[2..] == [other] + chunks[3..];
    assert chunks[3..] == [more] + chunks[4..] && chunks[4..] == [end] + [] && [] + data.data == data.data;
    NothingContinues(found, found);
    ContinuesOne(end, [], found, found);
    ContinuesOne(more, chunks[4..], FoundOf(header, data.data), found);
    ContinuesOne(other, chunks[3..], FoundOf(header, data.data), found);
    ContinuesOne(data, chunks[2..], FoundOf(header, []), found);
    ContinuesOne(header, chunks[1..], NOTHING, found);
    ReadingContinues(chunks, found);
    assert chunks[1].Name() == chunks[3].Name() == IDAT && chunks[2].Name() != IDAT;
    ReadButIncomplete(chunks, found);
  }

  /** A second header behind one of width zero: the second one counts. */
  lemma RepeatedHeaderIsRead(empty: Chunk, header: Chunk, data: Chunk, end: Chunk)
    requires IsSizedHeader(empty) && U32BE(empty.data, 0) == 0
    requires IsImageHeader(header) && data.Sized() && data.IsImageData() && end.Sized() && end.IsEnd()
    ensures IsReadButInvalid([empty, header, data, end], FoundOf(header, data.data))
  {
    hide Chunk.Sized, Chunk.Framed, Chunk.Name, U32BE, SupportedHeader, IsReadButInvalid, Continues, IsReading;
    var chunks, found := [empty, header, data, end], FoundOf(header, data.data);
    assert IHDR != IDAT && IHDR != IEND && IDAT != IEND;
    assert chunks == [empty] + chunks[1..] && chunks[1..] == [header] + chunks[2..] && chunks[2..] == [data] + chunks[3..];
    assert chunks[3..] == [end] + [] && [] + data.data == data.data;
    NothingContinues(found, found);
    ContinuesOne(end, [], found, found);
    ContinuesOne(data, chunks[3..], FoundOf(header, []), found);
    ContinuesOne(header, chunks[2..], FoundOf(empty, []), found);
    ContinuesOne(empty, chunks[1..], NOTHING, found);
    ReadingContinues(chunks, found);
    assert chunks[1].Name() == IHDR;
    ReadButIncomplete(chunks, found);
  }

  // ----- whatever is read is counted

  /** The inspected bytes inflate to the filtering of these scanlines, and the challenge fits the image. */
  ghost predicate Shows(found: Found, lines: seq<Scanline>, challenge: Option<Challenge>, inflate: Buffer -> Option<Buffer>) {
    && HasImage(found)
    && (challenge.Some? ==> challenge.value.Valid(found.width, found.height))
    && inflate(found.idat).Some? && DecodesTo(inflate(found.idat).value, found, lines)
  }

  /**
   The counts on everything that is read, valid PNG or not: the inspection passes, and what it
   tells is true of the image, whatever the filters, checksums and chunk order.
   */
  lemma ReadImageIsCounted(chunks: seq<Chunk>, found: Found, lines: seq<Scanline>, challenge: Option<Challenge>,
                           inflate: Buffer -> Option<Buffer>, r: Inspection)
    requires IsReading(chunks, found) && |ChunksToBytes(chunks)| >= 37 && Shows(found, lines, challenge, inflate)
    requires Inspects(SIGNATURE + ChunksToBytes(chunks), challenge, inflate, r)
    ensures |lines| == found.height && Describes(r, Rows(lines), found.width, Channels(found), challenge)
  {
    hide Filtered, Describes, ReadChunks, IsReading;
    var bytes := SIGNATURE + ChunksToBytes(chunks);
    assert bytes[..8] == SIGNATURE && bytes[8..] == ChunksToBytes(chunks);
    assert IsReadable(ChunksToBytes(chunks), found);
    WalkReadsExactly(ChunksToBytes(chunks), found);
    RawIsCounted(inflate(found.idat).value, found, lines, challenge, r);
  }

  lemma RawIsCounted(raw: Buffer, found: Found, lines: seq<Scanline>, challenge: Option<Challenge>, r: Inspection)
    requires HasImage(found) && DecodesTo(raw, found, lines) && InspectsRaw(raw, found, challenge, r)
    requires challenge.Some? ==> challenge.value.Valid(found.width, found.height)
    ensures |lines| == found.height && Describes(r, Rows(lines), found.width, Channels(found), challenge)
  {
    hide Filtered, Describes;
    var stride, channels := found.width * Channels(found), Channels(found);
    FilteredLength(lines, stride, channels);
    FiltersAreSupported(raw, found, lines, found.height);
    var decoded :| DecodesTo(raw, found, decoded) && Describes(r, Rows(decoded), found.width, channels, challenge);
    FilteredIsInjective(lines, decoded, stride, channels);
  }

  /** An image is shown by these bytes: signature, chunks that are read, and data that inflates to its filtered rows. */
  ghost predicate IsShownBy(bytes: Buffer, found: Found, lines: seq<Scanline>, challenge: Option<Challenge>, inflate: Buffer -> Option<Buffer>) {
    && |bytes| >= 45 && bytes[..8] == SIGNATURE
    && IsReadable(bytes[8..], found) && Shows(found, lines, challenge, inflate)
  }

  /**
   Exactly when the inspection passes: some image is shown by the bytes, under some filters, and the
   challenge fits it. Then the report describes that image, and no other is shown.
   */
  lemma InspectionPassesIff(bytes: Buffer, challenge: Option<Challenge>, inflate: Buffer -> Option<Buffer>, r: Inspection)
    requires Inspects(bytes, challenge, inflate, r)
    ensures r.Passed? <==> exists found, lines :: IsShownBy(bytes, found, lines, challenge, inflate)
    ensures forall found, lines | IsShownBy(bytes, found, lines, challenge, inflate) ::
              |lines| == found.height && Describes(r, Rows(lines), found.width, Channels(found), challenge)
  {
    hide Filtered, Describes, ReadChunks, IsReadable, DecodesTo, SupportedFilters;
    forall found, lines | IsShownBy(bytes, found, lines, challenge, inflate)
      ensures |lines| == found.height && Describes(r, Rows(lines), found.width, Channels(found), challenge)
      ensures r.Passed?
    {
      WalkReadsExactly(bytes[8..], found);
      RawIsCounted(inflate(found.idat).value, found, lines, challenge, r);
      DescribedIsPassed(r, Rows(lines), found.width, Channels(found), challenge);
    }
    if r.Passed? {
      var found := ReadChunks(bytes[8..], NOTHING).value;
      WalkReadsExactly(bytes[8..], found);
      var lines :| DecodesTo(inflate(found.idat).value, found, lines) && Describes(r, Rows(lines), found.width, Channels(found), challenge);
      assert IsShownBy(bytes, found, lines, challenge, inflate);
    }
  }

  lemma DescribedIsPassed(r: Inspection, image: seq<Row>, width: nat, channels: nat, challenge: Option<Challenge>)
    requires channels >= 3 && Describes(r, image, width, channels, challenge)
    ensures r.Passed?
  {
  }

  /** So the inspection passes files that are no valid PNG. */
  lemma InvalidImagePasses(chunks: seq<Chunk>, found: Found, lines: seq<Scanline>, challenge: Option<Challenge>,
                           inflate: Buffer -> Option<Buffer>, r: Inspection)
    requires IsReadButInvalid(chunks, found) && |ChunksToBytes(chunks)| >= 37 && Shows(found, lines, challenge, inflate)
    requires Inspects(SIGNATURE + ChunksToBytes(chunks), challenge, inflate, r)
    ensures r.Passed? && Describes(r, Rows(lines), found.width, Channels(found), challenge) && !IsPng(SIGNATURE + ChunksToBytes(chunks))
  {
    hide ReadChunks, ChunksToBytes, IsReading, Inspects, HasImage, Filtered;
    WalkReadsExactly(ChunksToBytes(chunks), found);
    var others :| IsReading(others, found) && ChunksToBytes(chunks) == ChunksToBytes(others);
    ReadImageIsCounted(others, found, lines, challenge, inflate, r);
  }

  // ----- the smallest examples

  const ZERO: Buffer := [0, 0, 0, 0]
  const HEADER := Chunk([0, 0, 0, 13], IHDR, [0, 0, 0, 1, 0, 0, 0, 1, 8, 2, 0, 0, 0], ZERO)
  const EMPTY_HEADER := Chunk([0, 0, 0, 13], IHDR, [0, 0, 0, 0, 0, 0, 0, 1, 8, 2, 0, 0, 0], ZERO)
  const DATA := Chunk([0, 0, 0, 1], IDAT, [7], ZERO)
  const TEXT := Chunk([0, 0, 0, 0], [0x74, 0x45, 0x58, 0x74], [], ZERO)
  const END := Chunk([0, 0, 0, 0], IEND, [], ZERO)

  lemma ExampleHeader()
    ensures IsImageHeader(HEADER) && FoundOf(HEADER, [7]) == Found(1, 1, 2, [7])
  {
  }

  lemma ExampleEmptyHeader()
    ensures IsSizedHeader(EMPTY_HEADER) && U32BE(EMPTY_HEADER.data, 0) == 0
  {
  }

  lemma ExampleChunks()
    ensures DATA.Sized() && DATA.IsImageData() && TEXT.Sized() && TEXT.IsAncillary() && END.Sized() && END.IsEnd()
  {
    assert TEXT.Name()[0] == 0x74;
  }

  /** One pixel: without an end, with image data in two runs, and with two headers. */
  lemma InvalidFilesAreRead()
    ensures IsReadButInvalid([HEADER, DATA], Found(1, 1, 2, [7]))
    ensures IsReadButInvalid([HEADER, DATA, TEXT, DATA, END], Found(1, 1, 2, [7, 7]))
    ensures IsReadButInvalid([EMPTY_HEADER, HEADER, DATA, END], Found(1, 1, 2, [7]))
  {
    hide IsReadButInvalid, IsSizedHeader, U32BE, Chunk.Sized, Chunk.Name;
    ExampleHeader();
    ExampleEmptyHeader();
    ExampleChunks();
    assert DATA.data + DATA.data == [7, 7];
    MissingEndIsRead(HEADER, DATA);
    SplitImageDataIsRead(HEADER, DATA, TEXT, DATA, END);
    RepeatedHeaderIsRead(EMPTY_HEADER, HEADER, DATA, END);
  }

  /** The one-pixel row (1, 2, 3), unfiltered. */
  const ROW := Scanline(0, [1, 2, 3])

  lemma ExampleRowIsShown(idat: Buffer, inflate: Buffer -> Option<Buffer>)
    requires idat != [] && inflate(idat) == Some([0, 1, 2, 3])
    ensures Shows(Found(1, 1, 2, idat), [ROW], None, inflate)
  {
    var row: Row := [1, 2, 3];
    var filtered := FilterRow(0, 3, Zeros(3), row);
    assert filtered == row by {
      forall i | 0 <= i < 3
        ensures filtered[i] == row[i]
      {
      }
    }
    assert [ROW][..0] == [];
    assert Filtered([], 3, 3) == [];
    assert Filtered([ROW], 3, 3) == [] + ([0] + filtered) == [0, 1, 2, 3];
  }

  lemma ExampleLength(first: Chunk, rest: seq<Chunk>)
    requires first.Sized() && |first.data| == 13 && rest != [] && AllSized(rest)
    ensures |ChunksToBytes([first] + rest)| >= 37
  {
    hide Chunk.Sized;
    assert ([first] + rest)[1..] == rest;
    assert |first.ToBytes()| >= 25 by {
      SizedLength(first);
    }
    SizedIsNonempty(rest[0]);
  }

  lemma SizedLength(c: Chunk)
    requires c.Sized()
    ensures |c.ToBytes()| == 12 + |c.data|
  {
  }

  predicate IsExample(chunks: seq<Chunk>, idat: Buffer) {
    || (chunks == [HEADER, DATA] && idat == [7])
    || (chunks == [HEADER, DATA, TEXT, DATA, END] && idat == [7, 7])
    || (chunks == [EMPTY_HEADER, HEADER, DATA, END] && idat == [7])
  }

  lemma ExampleIsInvalid(chunks: seq<Chunk>, idat: Buffer)
    requires IsExample(chunks, idat)
    ensures IsReadButInvalid(chunks, Found(1, 1, 2, idat))
  {
    hide IsReadButInvalid;
    InvalidFilesAreRead();
  }

  lemma ExampleSizes(chunks: seq<Chunk>, idat: Buffer)
    requires IsExample(chunks, idat)
    ensures |ChunksToBytes(chunks)| >= 37
  {
    hide Chunk.Sized, Chunk.Name, ChunksToBytes, SupportedHeader, U32BE;
    ExampleHeader();
    ExampleEmptyHeader();
    ExampleChunks();
    assert chunks == [chunks[0]] + chunks[1..];
    ExampleLength(chunks[0], chunks[1..]);
  }

  /** The inspection passes each of the three one-pixel files that are no valid PNG. */
  lemma InvalidFilesPass(chunks: seq<Chunk>, idat: Buffer, inflate: Buffer -> Option<Buffer>, r: Inspection)
    requires IsExample(chunks, idat) && inflate(idat) == Some([0, 1, 2, 3])
    requires Inspects(SIGNATURE + ChunksToBytes(chunks), None, inflate, r)
    ensures r.Passed? && r.widthPx == r.heightPx == 1 && !IsPng(SIGNATURE + ChunksToBytes(chunks))
  {
    hide Inspects, ChunksToBytes, IsReadButInvalid, Shows;
    ExampleIsInvalid(chunks, idat);
    ExampleRowIsShown(idat, inflate);
    ExampleSizes(chunks, idat);
    ExamplePasses(chunks, idat, inflate, r);
  }

  lemma ExamplePasses(chunks: seq<Chunk>, idat: Buffer, inflate: Buffer -> Option<Buffer>, r: Inspection)
    requires IsReadButInvalid(chunks, Found(1, 1, 2, idat)) && |ChunksToBytes(chunks)| >= 37
    requires Shows(Found(1, 1, 2, idat), [ROW], None, inflate)
    requires Inspects(SIGNATURE + ChunksToBytes(chunks), None, inflate, r)
    ensures r.Passed? && r.widthPx == r.heightPx == 1 && !IsPng(SIGNATURE + ChunksToBytes(chunks))
  {
    hide Inspects, ChunksToBytes, IsReadButInvalid, Hits, PixelsOf, Filtered;
    InvalidImagePasses(chunks, Found(1, 1, 2, idat), [ROW], None, inflate, r);
  }
}
