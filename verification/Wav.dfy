/**
 PCM WAV files: the writer of scripts/testbed/fake-vm-host-adapter.ts, and the reader of
 scripts/testbed/default-audio-evidence.ts.
 */
module Wav {
  import opened Bytes
  import opened Wrappers

  const RIFF: Buffer := [0x52, 0x49, 0x46, 0x46]
  const WAVE: Buffer := [0x57, 0x41, 0x56, 0x45]
  const FMT: Buffer := [0x66, 0x6D, 0x74, 0x20]
  const DATA: Buffer := [0x64, 0x61, 0x74, 0x61]

  // ----- the reader

  datatype Malformed = Incomplete | NotWave | SizeMismatch | TruncatedHeader | TruncatedChunk | BadFormatChunk | SecondData | MissingChunks | InvalidFields

  datatype Result<+T> = Ok(value: T) | Err(error: Malformed)

  datatype Format = Format(audioFormat: nat, channels: nat, sampleRateHz: nat, byteRate: nat, blockAlign: nat, bits: nat)

  datatype Found = Found(format: Option<Format>, data: Option<Buffer>)

  datatype Parsed = Parsed(sampleRateHz: nat, channels: nat, frameCount: nat, blockAlign: nat, bytesPerSample: nat, bits: nat, data: Buffer)

  function FormatAt(s: Buffer): Format
    requires |s| >= 16
  {
    Format(U16LE(s, 0), U16LE(s, 2), U32LE(s, 4), U32LE(s, 8), U16LE(s, 12), U16LE(s, 14))
  }

  /** The bytes after a chunk of `size` bytes and its padding, if it is there. */
  function AfterChunk(s: Buffer, size: nat): (rest: Buffer)
    requires 8 + size <= |s|
    ensures |rest| < |s|
  {
    if 8 + size + size % 2 <= |s| then s[8 + size + size % 2..] else []
  }

  function ReadChunks(s: Buffer, found: Found): Result<Found>
    decreases |s|
  {
    if s == [] then Ok(found)
    else if |s| < 8 then Err(TruncatedHeader)
    else
      var id, size := Ascii(s[..4]), U32LE(s, 4);
      if 8 + size > |s| then Err(TruncatedChunk)
      else
        var payload := s[8..8 + size];
        if id == FMT then
          if found.format.Some? || size < 16 then Err(BadFormatChunk)
          else ReadChunks(AfterChunk(s, size), found.(format := Some(FormatAt(payload))))
        else if id == DATA then
          if found.data.Some? then Err(SecondData)
          else ReadChunks(AfterChunk(s, size), found.(data := Some(payload)))
        else ReadChunks(AfterChunk(s, size), found)
  }

  predicate ValidFields(f: Format, data: Buffer) {
    && f.bits in {8, 16, 24, 32} && f.channels > 0 && f.sampleRateHz > 0
    && f.blockAlign == f.channels * (f.bits / 8)
    && f.byteRate == f.sampleRateHz * f.blockAlign
    && data != [] && f.blockAlign > 0 && |data| % f.blockAlign == 0
  }

  function Interpret(found: Found): Result<Parsed> {
    if found.format.None? || found.data.None? || found.format.value.audioFormat != 1 then Err(MissingChunks)
    else
      var f, data := found.format.value, found.data.value;
      if !ValidFields(f, data) then Err(InvalidFields)
      else Ok(Parsed(f.sampleRateHz, f.channels, |data| / f.blockAlign, f.blockAlign, f.bits / 8, f.bits, data))
  }

  function Parse(bytes: Buffer): Result<Parsed> {
    if |bytes| < 44 then Err(Incomplete)
    else if Ascii(bytes[..4]) != RIFF || Ascii(bytes[8..12]) != WAVE then Err(NotWave)
    else if U32LE(bytes, 4) + 8 != |bytes| then Err(SizeMismatch)
    else
      match ReadChunks(bytes[12..], Found(None, None))
      case Err(e) => Err(e)
      case Ok(found) => Interpret(found)
  }

  lemma ChunkAhead(bytes: Buffer, offset: nat)
    requires offset + 8 <= |bytes|
    ensures var s := bytes[offset..];
            && s[..4] == bytes[offset..offset + 4] && U32LE(s, 4) == U32LE(bytes, offset + 4)
            && (offset + 8 + U32LE(bytes, offset + 4) <= |bytes| ==>
                  var size := U32LE(bytes, offset + 4);
                  s[8..8 + size] == bytes[offset + 8..offset + 8 + size])
  {
  }

  /** The bytes from `offset` on; the last padding byte may lie outside the file. */
  function From(bytes: Buffer, offset: nat): Buffer {
    if offset <= |bytes| then bytes[offset..] else []
  }

  lemma NextAhead(bytes: Buffer, offset: nat, size: nat)
    requires offset + 8 + size <= |bytes|
    ensures AfterChunk(bytes[offset..], size) == From(bytes, offset + 8 + size + size % 2)
  {
  }

  lemma FormatFields(bytes: Buffer, start: nat, end: nat)
    requires start + 16 <= end <= |bytes|
    ensures FormatAt(bytes[start..end])
         == Format(U16LE(bytes, start), U16LE(bytes, start + 2), U32LE(bytes, start + 4), U32LE(bytes, start + 8),
                   U16LE(bytes, start + 12), U16LE(bytes, start + 14))
  {
  }

  lemma ReadStep(s: Buffer, found: Found)
    requires s != []
    ensures ReadChunks(s, found)
         == if |s| < 8 then Err(TruncatedHeader)
            else if 8 + U32LE(s, 4) > |s| then Err(TruncatedChunk)
            else
              var id, payload := Ascii(s[..4]), s[8..8 + U32LE(s, 4)];
              if id == FMT && (found.format.Some? || |payload| < 16) then Err(BadFormatChunk)
              else if id == DATA && found.data.Some? then Err(SecondData)
              else
                ReadChunks(AfterChunk(s, |payload|),
                           if id == FMT then found.(format := Some(FormatAt(payload)))
                           else if id == DATA then found.(data := Some(payload)) else found)
  {
    hide Ascii, U32LE, FormatAt, AfterChunk;
  }

  /** One step of the reader, at an offset of the file. */
  lemma ReadAhead(bytes: Buffer, offset: nat, found: Found)
    requires offset < |bytes|
    ensures ReadChunks(From(bytes, offset), found)
         == if offset + 8 > |bytes| then Err(TruncatedHeader)
            else
              var id, size, start := Ascii(bytes[offset..offset + 4]), U32LE(bytes, offset + 4), offset + 8;
              var end := start + size;
              if end > |bytes| then Err(TruncatedChunk)
              else if id == FMT && (found.format.Some? || size < 16) then Err(BadFormatChunk)
              else if id == DATA && found.data.Some? then Err(SecondData)
              else
                ReadChunks(From(bytes, end + size % 2),
                           if id == FMT then found.(format := Some(FormatAt(bytes[start..end])))
                           else if id == DATA then found.(data := Some(bytes[start..end])) else found)
  {
    hide Ascii, U32LE, FormatAt, AfterChunk, ReadChunks;
    var s := bytes[offset..];
    ReadStep(s, found);
    if offset + 8 <= |bytes| {
      ChunkAhead(bytes, offset);
      var size := U32LE(bytes, offset + 4);
      if offset + 8 + size <= |bytes| {
        NextAhead(bytes, offset, size);
      }
    }
  }

  /** `parseWavPcm` */
  method ParseWavPcm(bytes: Buffer) returns (r: Result<Parsed>)
    ensures r == Parse(bytes)
  {
    hide U16LE, U32LE, Ascii, FormatAt, ReadChunks, Interpret, From;
    if |bytes| < 44 {
      return Err(Incomplete);
    }
    if Ascii(bytes[..4]) != RIFF || Ascii(bytes[8..12]) != WAVE {
      return Err(NotWave);
    }
    if U32LE(bytes, 4) + 8 != |bytes| {
      return Err(SizeMismatch);
    }
    var format: Option<Format>, data: Option<Buffer> := None, None;
    var offset := 12;
    FirstAhead(bytes, 12);
    while offset < |bytes|
      invariant ReadChunks(bytes[12..], Found(None, None)) == ReadChunks(From(bytes, offset), Found(format, data))
      decreases |bytes| - offset
    {
      ReadAhead(bytes, offset, Found(format, data));
      if offset + 8 > |bytes| {
        return Err(TruncatedHeader);
      }
      var id := Ascii(bytes[offset..offset + 4]);
      var size := U32LE(bytes, offset + 4);
      var start := offset + 8;
      var end := start + size;
      if end > |bytes| {
        return Err(TruncatedChunk);
      }
      if id == FMT {
        if format.Some? || size < 16 {
          return Err(BadFormatChunk);
        }
        FormatFields(bytes, start, end);
        format := Some(Format(U16LE(bytes, start), U16LE(bytes, start + 2), U32LE(bytes, start + 4), U32LE(bytes, start + 8),
                              U16LE(bytes, start + 12), U16LE(bytes, start + 14)));
      } else if id == DATA {
        if data.Some? {
          return Err(SecondData);
        }
        data := Some(bytes[start..end]);
      }
      offset := end + size % 2;
    }
    NothingAhead(bytes, offset, Found(format, data));
    r := Interpret(Found(format, data));
  }

  lemma FirstAhead(bytes: Buffer, offset: nat)
    requires offset <= |bytes|
    ensures From(bytes, offset) == bytes[offset..]
  {
  }

  lemma NothingAhead(bytes: Buffer, offset: nat, found: Found)
    requires offset >= |bytes|
    ensures ReadChunks(From(bytes, offset), found) == Ok(found)
  {
  }

  // ----- the writer

  predicate IsSample(s: int) {
    -0x8000 <= s < 0x8000
  }

  /** `writeInt16LE` */
  function SampleBytes(s: int): (b: Buffer)
    requires IsSample(s)
    ensures |b| == 2 && I16LE(b, 0) == s
  {
    LE16(if s < 0 then s + 0x1_0000 else s)
  }

  /** A stereo frame, left sample first. */
  datatype Frame = Frame(left: int, right: int) {
    predicate Valid() {
      IsSample(left) && IsSample(right)
    }

    function ToBytes(): (b: Buffer)
      requires Valid()
      ensures |b| == 4
    {
      SampleBytes(left) + SampleBytes(right)
    }
  }

  predicate ValidFrames(frames: seq<Frame>) {
    forall f | f in frames :: f.Valid()
  }

  function FramesToBytes(frames: seq<Frame>): (b: Buffer)
    requires ValidFrames(frames)
    ensures |b| == 4 * |frames|
  {
    if frames == [] then [] else FramesToBytes(frames[..|frames| - 1]) + frames[|frames| - 1].ToBytes()
  }

  function FormatBytes(): (b: Buffer)
    ensures |b| == 16
    ensures FormatAt(b) == Format(1, 2, 48000, 192000, 4, 16)
  {
    var b := LE16(1) + LE16(2) + LE32(48000) + LE32(192000) + LE16(4) + LE16(16);
    assert b[..2] == LE16(1) && b[2..4] == LE16(2) && b[4..8] == LE32(48000) && b[8..12] == LE32(192000);
    assert b[12..14] == LE16(4) && b[14..16] == LE16(16);
    assert FormatAt(b) == Format(U16LE(b[..2], 0), U16LE(b[2..4], 0), U32LE(b[4..8], 0), U32LE(b[8..12], 0),
                                 U16LE(b[12..14], 0), U16LE(b[14..16], 0));
    b
  }

  /** The longest capture whose sizes fit the 32-bit size fields. */
  const MAXIMUM_FRAMES: nat := (0xFFFF_FFFF - 36) / 4

  function Header(frameCount: nat): (b: Buffer)
    requires frameCount <= MAXIMUM_FRAMES
    ensures |b| == 44
  {
    RIFF + LE32(36 + 4 * frameCount) + (WAVE + FMT) + LE32(16) + FormatBytes() + DATA + LE32(4 * frameCount)
  }

  /** The file laid out as the writer does. */
  function Layout(frames: seq<Frame>): Buffer
    requires ValidFrames(frames) && |frames| <= MAXIMUM_FRAMES
  {
    Header(|frames|) + FramesToBytes(frames)
  }

  /** Writes `field` right behind what has been written so far. */
  method Put(bytes: array<Byte>, offset: nat, field: Buffer)
    requires offset + |field| <= bytes.Length
    modifies bytes
    ensures bytes[..offset + |field|] == old(bytes[..offset]) + field
  {
    for i := 0 to |field|
      invariant bytes[..offset] == old(bytes[..offset])
      invariant bytes[offset..offset + i] == field[..i]
    {
      bytes[offset + i] := field[i];
    }
    assert bytes[..offset + |field|] == bytes[..offset] + bytes[offset..offset + |field|];
  }

  /** The six fields of the format chunk, in the order in which they are written. */
  method PutFormat(bytes: array<Byte>)
    requires bytes.Length >= 36
    modifies bytes
    ensures bytes[..36] == old(bytes[..20]) + FormatBytes()
  {
    hide LE16, LE32, FormatAt;
    Put(bytes, 20, LE16(1));
    Put(bytes, 22, LE16(2));
    Put(bytes, 24, LE32(48000));
    Put(bytes, 28, LE32(192000));
    Put(bytes, 32, LE16(4));
    Put(bytes, 34, LE16(16));
    Six(old(bytes[..20]), LE16(1), LE16(2), LE32(48000), LE32(192000), LE16(4), LE16(16));
  }

  lemma Six(s: Buffer, a: Buffer, b: Buffer, c: Buffer, d: Buffer, e: Buffer, f: Buffer)
    ensures s + a + b + c + d + e + f == s + (a + b + c + d + e + f)
  {
  }

  method PutHeader(bytes: array<Byte>, frameCount: nat)
    requires frameCount <= MAXIMUM_FRAMES && bytes.Length == 44 + frameCount * 4
    modifies bytes
    ensures bytes[..44] == Header(frameCount)
  {
    hide LE16, LE32, FormatAt, FormatBytes;
    Put(bytes, 0, RIFF);
    Put(bytes, 4, LE32(bytes.Length - 8));
    Put(bytes, 8, WAVE + FMT);
    Put(bytes, 16, LE32(16));
    PutFormat(bytes);
    Put(bytes, 36, DATA);
    Put(bytes, 40, LE32(frameCount * 4));
  }

  /** The writer of `materializeDefaultAudioEvidence`, for any frames. */
  method WriteWav(frames: seq<Frame>) returns (bytes: array<Byte>)
    requires ValidFrames(frames) && |frames| <= MAXIMUM_FRAMES
    ensures fresh(bytes) && bytes[..] == Layout(frames)
  {
    hide Header, SampleBytes;
    var frameCount := |frames|;
    bytes := new Byte[44 + frameCount * 4](_ => 0);
    PutHeader(bytes, frameCount);
    for frame := 0 to frameCount
      invariant bytes[..44 + frame * 4] == Header(frameCount) + FramesToBytes(frames[..frame])
    {
      assert frames[..frame + 1][..frame] == frames[..frame];
      assert frames[frame] in frames && frames[frame].Valid();
      Put(bytes, 44 + frame * 4, SampleBytes(frames[frame].left));
      Put(bytes, 46 + frame * 4, SampleBytes(frames[frame].right));
    }
    assert frames[..frameCount] == frames;
    assert bytes[..] == bytes[..44 + frameCount * 4];
  }

  // ----- the round trip

  lemma NamesAreAscii()
    ensures Ascii(RIFF) == RIFF && Ascii(WAVE) == WAVE && Ascii(FMT) == FMT && Ascii(DATA) == DATA
  {
  }

  lemma FormatChunkIsRead(n: nat, samples: Buffer)
    requires 4 * n < 0x1_0000_0000 && |samples| == 4 * n
    ensures var tail := DATA + LE32(4 * n) + samples;
            ReadChunks(FMT + LE32(16) + FormatBytes() + tail, Found(None, None))
            == ReadChunks(tail, Found(Some(Format(1, 2, 48000, 192000, 4, 16)), None))
  {
    hide LE32, LE16, FormatAt, U16LE, U32LE, Ascii;
    var tail := DATA + LE32(4 * n) + samples;
    var s := FMT + LE32(16) + FormatBytes() + tail;
    assert s[..4] == FMT && s[4..8] == LE32(16) && s[8..24] == FormatBytes();
    SliceU32LE(s, 4);
    assert AfterChunk(s, 16) == s[24..] == tail;
    NamesAreAscii();
  }

  lemma DataChunkIsRead(n: nat, samples: Buffer, format: Format)
    requires 4 * n < 0x1_0000_0000 && |samples| == 4 * n
    ensures ReadChunks(DATA + LE32(4 * n) + samples, Found(Some(format), None)) == Ok(Found(Some(format), Some(samples)))
  {
    hide LE32, LE16, FormatAt, U16LE, U32LE, Ascii;
    var s := DATA + LE32(4 * n) + samples;
    assert s[..4] == DATA && s[4..8] == LE32(4 * n) && s[8..8 + 4 * n] == samples;
    SliceU32LE(s, 4);
    assert AfterChunk(s, 4 * n) == [];
    NamesAreAscii();
  }

  lemma SliceU32LE(s: Buffer, i: nat)
    requires i + 4 <= |s|
    ensures U32LE(s, i) == U32LE(s[i..i + 4], 0)
  {
  }

  lemma HeaderSlices(n: nat, samples: Buffer)
    requires n <= MAXIMUM_FRAMES && |samples| == 4 * n
    ensures var bytes := Header(n) + samples;
            && bytes[..4] == RIFF && bytes[4..8] == LE32(36 + 4 * n) && bytes[8..12] == WAVE
            && bytes[12..] == FMT + LE32(16) + FormatBytes() + (DATA + LE32(4 * n) + samples)
  {
    hide LE32, LE16, FormatAt, FormatBytes;
    var format, size, length, head := FormatBytes(), LE32(4 * n), LE32(16), LE32(36 + 4 * n);
    var bytes := Header(n) + samples;
    var front := RIFF + head + WAVE;
    var back := FMT + length + format + (DATA + size + samples);
    assert bytes == front + back;
    assert bytes[..12] == front && bytes[12..] == back;
    assert bytes[..4] == front[..4] == RIFF;
    assert bytes[4..8] == front[4..8] == head;
    assert bytes[8..12] == front[8..12] == WAVE;
  }

  lemma SamplesAreInterpreted(n: nat, samples: Buffer)
    requires |samples| == 4 * n > 0
    ensures Interpret(Found(Some(Format(1, 2, 48000, 192000, 4, 16)), Some(samples)))
         == Ok(Parsed(48000, 2, n, 4, 2, 16, samples))
  {
    assert (4 * n) / 4 == n && (4 * n) % 4 == 0;
  }

  /** Reading back what was written: the same frame count, format and sample bytes. */
  lemma WrittenIsRead(frames: seq<Frame>)
    requires ValidFrames(frames) && 0 < |frames| <= MAXIMUM_FRAMES
    ensures Parse(Layout(frames)) == Ok(Parsed(48000, 2, |frames|, 4, 2, 16, FramesToBytes(frames)))
  {
    hide LE32, LE16, FormatAt, U16LE, U32LE, Interpret, ReadChunks, FramesToBytes, Header, FormatBytes, Ascii, ValidFrames;
    var n, samples := |frames|, FramesToBytes(frames);
    var bytes := Layout(frames);
    HeaderSlices(n, samples);
    SliceU32LE(bytes, 4);
    NamesAreAscii();
    FormatChunkIsRead(n, samples);
    DataChunkIsRead(n, samples, Format(1, 2, 48000, 192000, 4, 16));
    SamplesAreInterpreted(n, samples);
  }
}
