/**
 The files that `parseWavPcm` of scripts/testbed/default-audio-evidence.ts accepts, as a
 grammar: a RIFF/WAVE header, then chunks, among them one format and one data chunk.
 */
module WavGrammar {
  import opened Bytes
  import opened Wav
  import opened Wrappers

  /** A chunk, with the byte that pads an odd payload. Only the last chunk may lack it. */
  datatype Chunk = Chunk(id: Buffer, sizeField: Buffer, payload: Buffer, pad: Buffer) {
    predicate Framed(isLast: bool) {
      && |id| == |sizeField| == 4 && U32LE(sizeField, 0) == |payload|
      && (|pad| == |payload| % 2 || (isLast && pad == []))
    }

    function ToBytes(): Buffer {
      id + (sizeField + (payload + pad))
    }
  }

  function ChunksToBytes(chunks: seq<Chunk>): Buffer {
    if chunks == [] then [] else chunks[0].ToBytes() + ChunksToBytes(chunks[1..])
  }

  predicate WellFramed(chunks: seq<Chunk>) {
    forall k | 0 <= k < |chunks| :: chunks[k].Framed(k == |chunks| - 1)
  }

  /** The payloads of the chunks of a name. */
  function Payloads(chunks: seq<Chunk>, name: Buffer): seq<Buffer> {
    if chunks == [] then []
    else (if Ascii(chunks[0].id) == name then [chunks[0].payload] else []) + Payloads(chunks[1..], name)
  }

  /** The file holds one format chunk and one data chunk, whose fields agree with each other. */
  ghost predicate IsWav(bytes: Buffer, p: Parsed) {
    exists riff, size, wave, chunks, format, data :: IsWavOf(bytes, p, riff, size, wave, chunks, format, data)
  }

  predicate IsWavOf(bytes: Buffer, p: Parsed, riff: Buffer, size: Buffer, wave: Buffer, chunks: seq<Chunk>, format: Buffer, data: Buffer) {
    && bytes == riff + (size + (wave + ChunksToBytes(chunks)))
    && |riff| == |size| == |wave| == 4
    && Ascii(riff) == RIFF && Ascii(wave) == WAVE && U32LE(size, 0) + 8 == |bytes|
    && WellFramed(chunks)
    && Payloads(chunks, FMT) == [format] && |format| >= 16
    && Payloads(chunks, DATA) == [data]
    && Describes(FormatAt(format), data, p)
  }

  /** Uncompressed samples, a whole number of frames, described by consistent fields. */
  predicate Describes(f: Format, data: Buffer, p: Parsed) {
    && f.audioFormat == 1 && ValidFields(f, data)
    && p.data == data && p.sampleRateHz == f.sampleRateHz && p.channels == f.channels
    && p.bits == f.bits && p.bytesPerSample * 8 == f.bits && p.blockAlign == f.blockAlign
    && p.frameCount * f.blockAlign == |data|
  }

  // ----- the reader against the grammar

  /** What the chunks add to what has been found. */
  predicate Adds(chunks: seq<Chunk>, before: Found, after: Found) {
    var formats, datas := Payloads(chunks, FMT), Payloads(chunks, DATA);
    && (before.format.Some? ==> formats == [] && after.format == before.format)
    && (before.format.None? ==>
          if formats == [] then after.format.None?
          else |formats| == 1 && |formats[0]| >= 16 && after.format == Some(FormatAt(formats[0])))
    && (before.data.Some? ==> datas == [] && after.data == before.data)
    && (before.data.None? ==>
          if datas == [] then after.data.None? else |datas| == 1 && after.data == Some(datas[0]))
  }

  /** Taking in one chunk; None when it is refused. */
  function Take(c: Chunk, found: Found): Option<Found> {
    if Ascii(c.id) == FMT then
      if found.format.Some? || |c.payload| < 16 then None else Some(found.(format := Some(FormatAt(c.payload))))
    else if Ascii(c.id) == DATA then
      if found.data.Some? then None else Some(found.(data := Some(c.payload)))
    else Some(found)
  }

  predicate HasChunk(s: Buffer) {
    |s| >= 8 && 8 + U32LE(s, 4) <= |s|
  }

  function ChunkAt(s: Buffer): Chunk
    requires HasChunk(s)
  {
    var end := 8 + U32LE(s, 4);
    Chunk(s[..4], s[4..8], s[8..end], if end + end % 2 <= |s| then s[end..end + end % 2] else [])
  }

  function Rest(s: Buffer): (rest: Buffer)
    requires HasChunk(s)
    ensures |rest| < |s|
  {
    AfterChunk(s, U32LE(s, 4))
  }

  /** The reader takes one chunk after the other. */
  lemma ReadOne(s: Buffer, found: Found)
    requires s != []
    ensures ReadChunks(s, found).Ok? ==> HasChunk(s) && Take(ChunkAt(s), found).Some?
    ensures HasChunk(s) && Take(ChunkAt(s), found).Some? ==>
              ReadChunks(s, found) == ReadChunks(Rest(s), Take(ChunkAt(s), found).value)
  {
    hide U32LE, Ascii, FormatAt, AfterChunk;
  }

  lemma ReadsBack(c: Chunk, rest: Buffer)
    requires c.Framed(rest == [])
    ensures var s := c.ToBytes() + rest; HasChunk(s) && ChunkAt(s) == c && Rest(s) == rest
  {
    hide U32LE;
    var s := c.ToBytes() + rest;
    FourFields(c.id, c.sizeField, c.payload, c.pad, rest);
    SliceU32LE(s, 4);
    var end := 8 + |c.payload|;
    assert end % 2 == |c.payload| % 2;
    if |c.pad| < end % 2 {
      assert s[end..] == [];
    }
  }

  lemma FourFields(a: Buffer, b: Buffer, c: Buffer, d: Buffer, rest: Buffer)
    requires |a| == |b| == 4
    ensures var s, end := (a + (b + (c + d))) + rest, 8 + |c|;
            s[..4] == a && s[4..8] == b && s[8..end] == c && s[end..end + |d|] == d && s[end + |d|..] == rest
  {
  }

  lemma Splits(s: Buffer)
    requires HasChunk(s)
    ensures s == ChunkAt(s).ToBytes() + Rest(s)
    ensures ChunkAt(s).Framed(Rest(s) == []) && ChunkAt(s).ToBytes() != []
  {
    hide U32LE;
    var end := 8 + U32LE(s, 4);
    SliceU32LE(s, 4);
    assert end % 2 == U32LE(s, 4) % 2;
    CutInFive(s, end, if end + end % 2 <= |s| then end + end % 2 else end);
    if end + end % 2 > |s| {
      assert s[end..] == [];
    }
  }

  lemma CutInFive(s: Buffer, a: nat, b: nat)
    requires 8 <= a <= b <= |s|
    ensures s == (s[..4] + (s[4..8] + (s[8..a] + s[a..b]))) + s[b..]
  {
    assert s[8..b] == s[8..a] + s[a..b];
    assert s[4..b] == s[4..8] + s[8..b];
    assert s[..b] == s[..4] + s[4..b];
  }

  lemma AddsOne(c: Chunk, chunks: seq<Chunk>, found: Found, after: Found)
    ensures Adds([c] + chunks, found, after) <==> Take(c, found).Some? && Adds(chunks, Take(c, found).value, after)
  {
    hide Ascii, FormatAt;
    assert ([c] + chunks)[1..] == chunks;
    assert FMT != DATA;
  }

  lemma {:induction false} GrammarIsRead(chunks: seq<Chunk>, found: Found, after: Found)
    requires WellFramed(chunks) && Adds(chunks, found, after)
    ensures ReadChunks(ChunksToBytes(chunks), found) == Ok(after)
    decreases |chunks|
  {
    hide Take, Chunk.ToBytes, ChunkAt, HasChunk, Rest, ReadChunks;
    if chunks == [] {
      NothingToRead(found, after);
    } else {
      var rest := chunks[1..];
      assert chunks == [chunks[0]] + rest;
      AddsOne(chunks[0], rest, found, after);
      LaterChunks(chunks);
      ReadsBack(chunks[0], ChunksToBytes(rest));
      ReadOne(ChunksToBytes(chunks), found);
      GrammarIsRead(rest, Take(chunks[0], found).value, after);
    }
  }

  lemma NothingToRead(found: Found, after: Found)
    ensures Adds([], found, after) <==> after == found
    ensures ReadChunks([], found) == Ok(found)
  {
  }

  lemma LaterChunks(chunks: seq<Chunk>)
    requires WellFramed(chunks) && chunks != []
    ensures WellFramed(chunks[1..])
    ensures chunks[0].Framed(ChunksToBytes(chunks[1..]) == [])
    ensures ChunksToBytes(chunks) != []
  {
    hide U32LE;
    if |chunks| > 1 {
      assert chunks[1].Framed(|chunks| == 2);
      assert |chunks[1].ToBytes()| >= 8;
    }
    assert |chunks[0].ToBytes()| >= 8;
  }

  lemma {:induction false} ReadIsGrammar(s: Buffer, found: Found) returns (chunks: seq<Chunk>)
    requires ReadChunks(s, found).Ok?
    ensures WellFramed(chunks) && ChunksToBytes(chunks) == s
    ensures Adds(chunks, found, ReadChunks(s, found).value)
    decreases |s|
  {
    hide Take, Chunk.ToBytes, Chunk.Framed, ChunkAt, HasChunk, Rest, ReadChunks, Adds;
    chunks := [];
    if s == [] {
      NothingToRead(found, found);
    } else {
      ReadOne(s, found);
      Splits(s);
      var c := ChunkAt(s);
      var rest := ReadIsGrammar(Rest(s), Take(c, found).value);
      chunks := [c] + rest;
      assert chunks[1..] == rest;
      AddsOne(c, rest, found, ReadChunks(s, found).value);
      NoChunks(rest);
    }
  }

  lemma NoChunks(chunks: seq<Chunk>)
    requires WellFramed(chunks)
    ensures ChunksToBytes(chunks) == [] <==> chunks == []
  {
    if chunks != [] {
      LaterChunks(chunks);
    }
  }

  // ----- the whole file

  lemma InterpretedIsDescribed(format: Format, data: Buffer, p: Parsed)
    ensures Interpret(Found(Some(format), Some(data))) == Ok(p) <==> Describes(format, data, p)
  {
    if ValidFields(format, data) {
      assert |data| == |data| / format.blockAlign * format.blockAlign;
      if Describes(format, data, p) {
        SameQuotient(p.frameCount, |data|, format.blockAlign);
      }
    }
  }

  lemma SameQuotient(q: nat, n: nat, d: nat)
    requires q * d == n && d > 0
    ensures n / d == q
  {
    var r := n / d;
    assert r * d <= n < r * d + d;
    assert q < r ==> (q + 1) * d <= r * d;
    assert r < q ==> (r + 1) * d <= q * d;
  }

  function Volume(payloads: seq<Buffer>): nat {
    if payloads == [] then 0 else 8 + |payloads[0]| + Volume(payloads[1..])
  }

  lemma {:induction false} ChunksAreLongEnough(chunks: seq<Chunk>)
    requires WellFramed(chunks)
    ensures |ChunksToBytes(chunks)| >= Volume(Payloads(chunks, FMT)) + Volume(Payloads(chunks, DATA))
    decreases |chunks|
  {
    hide Ascii, U32LE;
    if chunks != [] {
      LaterChunks(chunks);
      ChunksAreLongEnough(chunks[1..]);
      FirstPayload(chunks, FMT);
      FirstPayload(chunks, DATA);
      assert FMT != DATA;
    }
  }

  lemma FirstPayload(chunks: seq<Chunk>, name: Buffer)
    requires chunks != []
    ensures Volume(Payloads(chunks, name))
         == (if Ascii(chunks[0].id) == name then 8 + |chunks[0].payload| else 0) + Volume(Payloads(chunks[1..], name))
  {
    hide Ascii;
    var rest := Payloads(chunks[1..], name);
    assert [] + rest == rest;
    assert ([chunks[0].payload] + rest)[1..] == rest;
  }

  lemma AcceptedIsWav(bytes: Buffer)
    requires Parse(bytes).Ok?
    ensures IsWav(bytes, Parse(bytes).value)
  {
    hide ReadChunks, Ascii, U32LE, FormatAt, Interpret, ValidFields, Describes, WellFramed, ChunksToBytes, Payloads;
    var p := Parse(bytes).value;
    var found := ReadChunks(bytes[12..], Found(None, None)).value;
    var chunks := ReadIsGrammar(bytes[12..], Found(None, None));
    BothFound(found);
    InterpretedIsDescribed(found.format.value, found.data.value, p);
    SliceU32LE(bytes, 4);
    var format := Payloads(chunks, FMT)[0];
    assert bytes == bytes[..4] + (bytes[4..8] + (bytes[8..12] + bytes[12..]));
    assert IsWavOf(bytes, p, bytes[..4], bytes[4..8], bytes[8..12], chunks, format, found.data.value);
  }

  lemma BothFound(found: Found)
    requires Interpret(found).Ok?
    ensures found.format.Some? && found.data.Some?
  {
  }

  lemma WavIsAccepted(bytes: Buffer, p: Parsed, riff: Buffer, size: Buffer, wave: Buffer, chunks: seq<Chunk>, format: Buffer, data: Buffer)
    requires IsWavOf(bytes, p, riff, size, wave, chunks, format, data)
    ensures Parse(bytes) == Ok(p)
  {
    hide ReadChunks, Ascii, U32LE, FormatAt, Interpret, WellFramed, ChunksToBytes, Payloads;
    var found := Found(Some(FormatAt(format)), Some(data));
    GrammarIsRead(chunks, Found(None, None), found);
    InterpretedIsDescribed(FormatAt(format), data, p);
    ChunksAreLongEnough(chunks);
    assert Volume([format]) >= 24 && Volume([data]) >= 9;
    HeaderFields(riff, size, wave, ChunksToBytes(chunks));
    SliceU32LE(bytes, 4);
  }

  lemma HeaderFields(a: Buffer, b: Buffer, c: Buffer, rest: Buffer)
    requires |a| == |b| == |c| == 4
    ensures var s := a + (b + (c + rest)); s[..4] == a && s[4..8] == b && s[8..12] == c && s[12..] == rest
  {
  }

  /** The reader returns `p` for exactly the files that the grammar describes as holding `p`. */
  lemma ParseAcceptsExactlyWav(bytes: Buffer, p: Parsed)
    ensures Parse(bytes) == Ok(p) <==> IsWav(bytes, p)
  {
    hide Parse, IsWavOf;
    if Parse(bytes) == Ok(p) {
      AcceptedIsWav(bytes);
    }
    if IsWav(bytes, p) {
      var riff, size, wave, chunks, format, data :| IsWavOf(bytes, p, riff, size, wave, chunks, format, data);
      WavIsAccepted(bytes, p, riff, size, wave, chunks, format, data);
    }
  }
}
