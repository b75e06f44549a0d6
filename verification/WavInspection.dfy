/**
 Loudness of a window of a PCM capture: `sampleMagnitude` and `inspectParsedWavPcm` of
 scripts/testbed/default-audio-evidence.ts. Milliseconds are reals; the source computes
 them in floating point.
 */
module WavInspection {
  import opened Bytes
  import opened Products
  import opened Wav
  import opened Wrappers

  // ----- samples and frames

  function Abs(x: int): nat {
    if x < 0 then -x else x
  }

  function Max(a: nat, b: nat): nat {
    if a < b then b else a
  }

  function U24LE(s: Buffer, i: nat): (n: nat)
    requires i + 3 <= |s|
    ensures n < 0x100_0000
  {
    U16LE(s, i) + (s[i + 2] as int) * 0x1_0000
  }

  /** `sampleMagnitude` */
  function SampleMagnitude(bytes: Buffer, offset: nat, bits: nat): nat
    requires bits in {8, 16, 24, 32} && offset + bits / 8 <= |bytes|
  {
    if bits == 8 then Abs((bytes[offset] as int) - 128)
    else if bits == 16 then Abs(I16LE(bytes, offset))
    else if bits == 24 then Abs(Signed(U24LE(bytes, offset), 0x100_0000))
    else Abs(I32LE(bytes, offset))
  }

  /** The number that bytes denote, least significant first. */
  function LittleEndian(s: Buffer): nat {
    if s == [] then 0 else (s[0] as int) + 0x100 * LittleEndian(s[1..])
  }

  function Least(a: nat, b: nat): nat {
    if a < b then a else b
  }

  /**
   A wide sample's magnitude is the distance of its unsigned value from the nearest multiple
   of the sample range; an eight-bit sample's is its distance from the middle.
   */
  lemma MagnitudeIsDistance(bytes: Buffer, offset: nat, bits: nat)
    requires bits in {8, 16, 24, 32} && offset + bits / 8 <= |bytes|
    ensures var n := LittleEndian(bytes[offset..offset + bits / 8]);
            var range := if bits == 8 then 0x100 else if bits == 16 then 0x1_0000 else if bits == 24 then 0x100_0000 else 0x1_0000_0000;
            && n < range
            && SampleMagnitude(bytes, offset, bits) == if bits == 8 then Abs(n - 128) else Least(n, range - n)
  {
    var s := bytes[offset..offset + bits / 8];
    if bits == 8 {
      OneByte(s);
    } else if bits == 16 {
      TwoBytes(s);
    } else if bits == 24 {
      OneByte(s[2..]);
      TwoBytes(s[..2]);
      Joined(s, 3);
    } else {
      TwoBytes(s[2..]);
      TwoBytes(s[..2]);
      Joined(s, 4);
    }
  }

  lemma OneByte(s: Buffer)
    requires |s| == 1
    ensures LittleEndian(s) == s[0]
  {
    assert LittleEndian(s[1..]) == 0;
  }

  lemma TwoBytes(s: Buffer)
    requires |s| == 2
    ensures LittleEndian(s) == U16LE(s, 0)
  {
    OneByte(s[1..]);
  }

  lemma Joined(s: Buffer, n: nat)
    requires |s| == n >= 2
    ensures LittleEndian(s) == LittleEndian(s[..2]) + 0x1_0000 * LittleEndian(s[2..])
  {
    TwoBytes(s[..2]);
    assert s[1..][1..] == s[2..];
  }

  /** What the reader guarantees of a capture it accepts. */
  predicate WellFormed(p: Parsed) {
    && p.bits in {8, 16, 24, 32} && p.bytesPerSample == p.bits / 8
    && p.channels > 0 && p.sampleRateHz > 0 && p.frameCount > 0
    && p.blockAlign == p.channels * p.bytesPerSample
    && |p.data| == p.frameCount * p.blockAlign
  }

  lemma ReaderIsWellFormed(bytes: Buffer)
    requires Parse(bytes).Ok?
    ensures WellFormed(Parse(bytes).value)
  {
    hide ReadChunks, Ascii, U32LE;
    var found := ReadChunks(bytes[12..], Found(None, None)).value;
    assert Interpret(found).Ok?;
    InterpretedIsWellFormed(found);
  }

  lemma InterpretedIsWellFormed(found: Found)
    requires Interpret(found).Ok?
    ensures WellFormed(Interpret(found).value)
  {
    var f, data := found.format.value, found.data.value;
    assert |data| == |data| / f.blockAlign * f.blockAlign;
  }

  lemma SampleIsInside(p: Parsed, frame: nat, channel: nat)
    requires WellFormed(p) && frame < p.frameCount && channel < p.channels
    ensures frame * p.blockAlign + channel * p.bytesPerSample + p.bits / 8 <= |p.data|
  {
    Scale(channel + 1, p.channels, p.bytesPerSample);
    Scale(channel, channel, p.bytesPerSample);
    Scale(frame + 1, p.frameCount, p.blockAlign);
    Scale(frame, frame, p.blockAlign);
  }

  function Magnitude(p: Parsed, frame: nat, channel: nat): nat
    requires WellFormed(p) && frame < p.frameCount && channel < p.channels
  {
    SampleIsInside(p, frame, channel);
    SampleMagnitude(p.data, frame * p.blockAlign + channel * p.bytesPerSample, p.bits)
  }

  /** The largest magnitude among the first `channels` channels of a frame. */
  function PeakOfChannels(p: Parsed, frame: nat, channels: nat): nat
    requires WellFormed(p) && frame < p.frameCount && channels <= p.channels
  {
    if channels == 0 then 0
    else Max(PeakOfChannels(p, frame, channels - 1), Magnitude(p, frame, channels - 1))
  }

  function FramePeak(p: Parsed, frame: nat): nat
    requires WellFormed(p) && frame < p.frameCount
  {
    PeakOfChannels(p, frame, p.channels)
  }

  lemma {:induction false} PeakOfChannelsIsLargest(p: Parsed, frame: nat, channels: nat)
    requires WellFormed(p) && frame < p.frameCount && 0 < channels <= p.channels
    ensures forall c: nat :: c < channels ==> Magnitude(p, frame, c) <= PeakOfChannels(p, frame, channels)
    ensures exists c: nat :: c < channels && Magnitude(p, frame, c) == PeakOfChannels(p, frame, channels)
  {
    hide Magnitude;
    if channels > 1 {
      PeakOfChannelsIsLargest(p, frame, channels - 1);
    }
    assert PeakOfChannels(p, frame, 0) == 0;
    assert Magnitude(p, frame, channels - 1) <= PeakOfChannels(p, frame, channels);
  }

  // ----- windows of frames

  predicate IsWindow(p: Parsed, start: nat, end: nat) {
    WellFormed(p) && start <= end <= p.frameCount
  }

  predicate IsLoud(p: Parsed, minimum: real, frame: nat)
    requires WellFormed(p) && frame < p.frameCount
  {
    FramePeak(p, frame) as real >= minimum
  }

  ghost function LoudFrames(p: Parsed, minimum: real, start: nat, end: nat): set<nat>
    requires IsWindow(p, start, end)
  {
    set frame: nat | start <= frame < end && IsLoud(p, minimum, frame)
  }

  ghost function LoudMagnitudes(p: Parsed, minimum: real, start: nat, end: nat): set<nat>
    requires IsWindow(p, start, end)
  {
    set frame: nat | start <= frame < end && IsLoud(p, minimum, frame) :: FramePeak(p, frame)
  }

  function WindowPeak(p: Parsed, start: nat, end: nat): nat
    requires IsWindow(p, start, end)
  {
    if start == end then 0 else Max(WindowPeak(p, start, end - 1), FramePeak(p, end - 1))
  }

  /** The peak is the largest frame peak of a nonempty window. */
  lemma {:induction false} WindowPeakIsLargest(p: Parsed, start: nat, end: nat)
    requires IsWindow(p, start, end) && start < end
    ensures forall f: nat :: start <= f < end ==> FramePeak(p, f) <= WindowPeak(p, start, end)
    ensures exists f: nat :: start <= f < end && FramePeak(p, f) == WindowPeak(p, start, end)
  {
    hide FramePeak, WellFormed;
    if start < end - 1 {
      WindowPeakIsLargest(p, start, end - 1);
    }
    assert WindowPeak(p, start, start) == 0;
    assert FramePeak(p, end - 1) <= WindowPeak(p, start, end);
  }

  lemma {:induction false} CardinalityIsMonotone<T>(a: set<T>, b: set<T>)
    requires a <= b
    ensures |a| <= |b|
  {
    assert b == a + (b - a);
  }

  /** Adjacent windows: counts add, magnitudes join. */
  lemma AdjacentLoudness(p: Parsed, minimum: real, start: nat, mid: nat, end: nat)
    requires IsWindow(p, start, end) && start <= mid <= end
    ensures |LoudFrames(p, minimum, start, end)|
         == |LoudFrames(p, minimum, start, mid)| + |LoudFrames(p, minimum, mid, end)|
    ensures LoudMagnitudes(p, minimum, start, end)
         == LoudMagnitudes(p, minimum, start, mid) + LoudMagnitudes(p, minimum, mid, end)
  {
    hide IsLoud, WellFormed, FramePeak;
    var left, right := LoudFrames(p, minimum, start, mid), LoudFrames(p, minimum, mid, end);
    assert left !! right;
    assert LoudFrames(p, minimum, start, end) == left + right;
  }

  /** Adjacent windows: the peak is the larger of the two. */
  lemma {:induction false} AdjacentPeak(p: Parsed, start: nat, mid: nat, end: nat)
    requires IsWindow(p, start, end) && start <= mid <= end
    ensures WindowPeak(p, start, end) == Max(WindowPeak(p, start, mid), WindowPeak(p, mid, end))
  {
    hide FramePeak, WellFormed;
    if mid < end {
      AdjacentPeak(p, start, mid, end - 1);
    }
  }

  // ----- the inspection

  datatype Threshold = Threshold(minimumPeakAbsoluteSample: real, minimumNonSilentFrames: real, minimumDurationMs: real,
                                 minimumDistinctMagnitudes: real)

  const DEFAULT_AUDIO_THRESHOLD: Threshold := Threshold(512.0, 24000.0, 500.0, 2.0)

  /** The asked-for window in milliseconds; None stands for an absent or non-finite bound. */
  datatype Window = Window(start: Option<real>, end: Option<real>) {
    function Start(): (ms: real)
      ensures ms >= 0.0
    {
      if start.Some? && start.value > 0.0 then start.value else 0.0
    }

    function End(): (ms: Option<real>)
      ensures ms.Some? ==> ms.value >= Start()
    {
      if end.None? then None else if end.value < Start() then Some(Start()) else end
    }
  }

  datatype Inspection =
    | EmptyWindow
    | Inspected(passed: bool, frameCount: nat, durationMs: real, nonSilentFrameCount: nat, peakAbsoluteSample: nat,
                distinctMagnitudes: nat, startMs: real, endMs: real)

  function Ceil(x: real): int {
    -((-x).Floor)
  }

  function FramesAt(ms: real, rate: nat): (frames: real)
    requires ms >= 0.0
    ensures frames >= 0.0
  {
    (ms / 1000.0) * (rate as real)
  }

  function DurationMs(frames: nat, rate: nat): real
    requires rate > 0
  {
    ((frames as real) / (rate as real)) * 1000.0
  }

  /** The first frame of a window, and the one behind its last, at a sample rate and number of frames. */
  function FirstFrame(rate: nat, window: Window): nat {
    FramesAt(window.Start(), rate).Floor
  }

  function FrameBound(rate: nat, frameCount: nat, window: Window): (frame: nat)
    ensures frame <= frameCount
  {
    if window.End().None? then frameCount
    else
      var unclamped := Ceil(FramesAt(window.End().value, rate));
      if frameCount < unclamped then frameCount else unclamped
  }

  function StartFrame(p: Parsed, window: Window): nat {
    FirstFrame(p.sampleRateHz, window)
  }

  function EndFrame(p: Parsed, window: Window): (frame: nat)
    ensures frame <= p.frameCount
  {
    FrameBound(p.sampleRateHz, p.frameCount, window)
  }

  predicate Passes(t: Threshold, nonSilent: nat, peak: nat, duration: real, distinct: nat) {
    && nonSilent as real >= t.minimumNonSilentFrames
    && peak as real >= t.minimumPeakAbsoluteSample
    && duration >= t.minimumDurationMs
    && distinct as real >= t.minimumDistinctMagnitudes
  }

  ghost function InspectFrames(p: Parsed, t: Threshold, start: nat, end: nat, startMs: real, endMs: real): Inspection
    requires IsWindow(p, start, end)
  {
    var nonSilent, peak := |LoudFrames(p, t.minimumPeakAbsoluteSample, start, end)|, WindowPeak(p, start, end);
    var duration, distinct := DurationMs(end - start, p.sampleRateHz), |LoudMagnitudes(p, t.minimumPeakAbsoluteSample, start, end)|;
    Inspected(Passes(t, nonSilent, peak, duration, distinct), end - start, duration, nonSilent, peak, distinct, startMs, endMs)
  }

  function EndMs(p: Parsed, window: Window): real
    requires WellFormed(p)
  {
    if window.End().Some? then window.End().value else DurationMs(p.frameCount, p.sampleRateHz)
  }

  ghost function Inspect(p: Parsed, t: Threshold, window: Window): Inspection
    requires WellFormed(p)
  {
    var start, end := StartFrame(p, window), EndFrame(p, window);
    if end <= start then EmptyWindow
    else InspectFrames(p, t, start, end, window.Start(), EndMs(p, window))
  }

  lemma OneMoreFrame(p: Parsed, minimum: real, start: nat, end: nat)
    requires IsWindow(p, start, end + 1) && start <= end
    ensures var frames, more := LoudFrames(p, minimum, start, end), LoudFrames(p, minimum, start, end + 1);
            var magnitudes, wider := LoudMagnitudes(p, minimum, start, end), LoudMagnitudes(p, minimum, start, end + 1);
            if IsLoud(p, minimum, end) then |more| == |frames| + 1 && wider == magnitudes + {FramePeak(p, end)}
            else more == frames && wider == magnitudes
  {
    hide IsLoud, WellFormed, FramePeak;
    var frames, more := LoudFrames(p, minimum, start, end), LoudFrames(p, minimum, start, end + 1);
    if IsLoud(p, minimum, end) {
      assert more == frames + {end};
    } else {
      assert more == frames;
    }
  }

  // ----- what is reported of any window

  /** The bounds that a window is normalised to. */
  function FromMs(window: Window): real {
    if window.start.Some? && window.start.value >= 0.0 then window.start.value else 0.0
  }

  function ToMs(window: Window): real
    requires window.end.Some?
  {
    if window.end.value <= FromMs(window) then FromMs(window) else window.end.value
  }

  /** Some of the time that a frame lasts, from `frame` to `frame + 1` sample periods, lies within the window. */
  predicate Overlaps(p: Parsed, window: Window, frame: nat) {
    && FromMs(window) * (p.sampleRateHz as real) < 1000.0 * ((frame + 1) as real)
    && (window.end.Some? ==> 1000.0 * (frame as real) < ToMs(window) * (p.sampleRateHz as real))
  }

  function FramesIn(p: Parsed, window: Window): set<nat> {
    set frame: nat | frame < p.frameCount && Overlaps(p, window, frame)
  }

  function LoudIn(p: Parsed, minimum: real, window: Window): set<nat>
    requires WellFormed(p)
  {
    set frame: nat | frame < p.frameCount && Overlaps(p, window, frame) && FramePeak(p, frame) as real >= minimum
  }

  predicate AreFrames(p: Parsed, frames: set<nat>) {
    forall f | f in frames :: f < p.frameCount
  }

  function PeaksOf(p: Parsed, frames: set<nat>): set<nat>
    requires WellFormed(p) && AreFrames(p, frames)
  {
    set f | f in frames :: FramePeak(p, f)
  }

  /** So many milliseconds are so many frames. */
  predicate LastFor(ms: real, rate: nat, frames: nat) {
    ms * (rate as real) == 1000.0 * (frames as real)
  }

  /** The measures of the frames that overlap the window. */
  ghost predicate MeasuresAre(p: Parsed, frames: set<nat>, loud: set<nat>, r: Inspection)
    requires WellFormed(p) && r.Inspected? && AreFrames(p, frames) && AreFrames(p, loud)
  {
    && r.frameCount == |frames|
    && LastFor(r.durationMs, p.sampleRateHz, r.frameCount)
    && r.nonSilentFrameCount == |loud|
    && r.distinctMagnitudes == |PeaksOf(p, loud)|
    && (forall f | f in frames :: FramePeak(p, f) <= r.peakAbsoluteSample)
    && (exists f :: f in frames && FramePeak(p, f) == r.peakAbsoluteSample)
  }

  predicate BoundsAre(p: Parsed, window: Window, r: Inspection)
    requires r.Inspected?
  {
    && r.startMs == FromMs(window)
    && (if window.end.Some? then r.endMs == ToMs(window) else LastFor(r.endMs, p.sampleRateHz, p.frameCount))
  }

  predicate VerdictIs(t: Threshold, r: Inspection)
    requires r.Inspected?
  {
    r.passed <==>
      && r.nonSilentFrameCount as real >= t.minimumNonSilentFrames
      && r.peakAbsoluteSample as real >= t.minimumPeakAbsoluteSample
      && r.durationMs >= t.minimumDurationMs
      && r.distinctMagnitudes as real >= t.minimumDistinctMagnitudes
  }

  /** What an inspection tells of a window: nothing if no frame overlaps it, else the measures of those frames and their verdict. */
  ghost predicate Tells(p: Parsed, t: Threshold, window: Window, r: Inspection)
    requires WellFormed(p)
  {
    && (r.EmptyWindow? <==> FramesIn(p, window) == {})
    && (r.Inspected? ==>
          && MeasuresAre(p, FramesIn(p, window), LoudIn(p, t.minimumPeakAbsoluteSample, window), r)
          && BoundsAre(p, window, r) && VerdictIs(t, r))
  }

  lemma DurationTimesRate(frames: nat, rate: nat)
    requires rate > 0
    ensures LastFor(DurationMs(frames, rate), rate, frames)
  {
    var q, r := (frames as real) / (rate as real), rate as real;
    assert q * r == frames as real;
    assert q * 1000.0 * r == 1000.0 * (q * r);
  }

  lemma FramesTimesThousand(ms: real, rate: nat)
    requires ms >= 0.0
    ensures 1000.0 * FramesAt(ms, rate) == ms * (rate as real)
  {
    var q, r := ms / 1000.0, rate as real;
    assert 1000.0 * (q * r) == (1000.0 * q) * r;
  }

  lemma InspectedIffOverlaps(p: Parsed, window: Window, frame: nat)
    requires WellFormed(p) && frame < p.frameCount
    ensures StartFrame(p, window) <= frame < EndFrame(p, window) <==> Overlaps(p, window, frame)
  {
    hide FramesAt, StartFrame, EndFrame, WellFormed;
    InspectedFramesOverlapTheWindow(p, window, frame);
    FramesTimesThousand(window.Start(), p.sampleRateHz);
    if window.End().Some? {
      FramesTimesThousand(window.End().value, p.sampleRateHz);
    }
  }

  ghost function Interval(start: nat, end: nat): (frames: set<nat>)
    requires start <= end
    ensures |frames| == end - start && forall f :: f in frames <==> start <= f < end
  {
    if start == end then {} else Interval(start, end - 1) + {end - 1}
  }

  /** The frames that overlap a window are the ones from its first frame up to its bound. */
  lemma FramesInWindow(p: Parsed, minimum: real, window: Window)
    requires WellFormed(p)
    ensures var start, end := StartFrame(p, window), EndFrame(p, window);
            if end <= start then FramesIn(p, window) == {}
            else
              && FramesIn(p, window) == Interval(start, end)
              && LoudIn(p, minimum, window) == LoudFrames(p, minimum, start, end)
              && PeaksOf(p, LoudIn(p, minimum, window)) == LoudMagnitudes(p, minimum, start, end)
  {
    hide WellFormed, StartFrame, EndFrame, Overlaps, FramePeak;
    forall frame: nat | frame < p.frameCount
      ensures StartFrame(p, window) <= frame < EndFrame(p, window) <==> Overlaps(p, window, frame)
    {
      InspectedIffOverlaps(p, window, frame);
    }
  }

  lemma PeaksOfLoud(p: Parsed, minimum: real, start: nat, end: nat)
    requires IsWindow(p, start, end)
    ensures AreFrames(p, LoudFrames(p, minimum, start, end)) && AreFrames(p, Interval(start, end))
    ensures PeaksOf(p, LoudFrames(p, minimum, start, end)) == LoudMagnitudes(p, minimum, start, end)
  {
    hide WellFormed, FramePeak, IsLoud;
  }

  lemma PeakOfWindow(p: Parsed, start: nat, end: nat)
    requires IsWindow(p, start, end) && start < end
    ensures forall f | f in Interval(start, end) :: FramePeak(p, f) <= WindowPeak(p, start, end)
    ensures exists f :: f in Interval(start, end) && FramePeak(p, f) == WindowPeak(p, start, end)
  {
    hide WellFormed, WindowPeak, FramePeak;
    WindowPeakIsLargest(p, start, end);
    var f :| start <= f < end && FramePeak(p, f) == WindowPeak(p, start, end);
    assert f in Interval(start, end);
  }

  lemma MeasuresOf(p: Parsed, t: Threshold, start: nat, end: nat, startMs: real, endMs: real)
    requires IsWindow(p, start, end) && start < end
    ensures var loud, r := LoudFrames(p, t.minimumPeakAbsoluteSample, start, end), InspectFrames(p, t, start, end, startMs, endMs);
            && AreFrames(p, Interval(start, end)) && AreFrames(p, loud) && MeasuresAre(p, Interval(start, end), loud, r)
  {
    hide WellFormed, WindowPeak, FramePeak, DurationMs, LoudFrames, LoudMagnitudes, PeaksOf, AreFrames, Passes, LastFor, Interval;
    PeaksOfLoud(p, t.minimumPeakAbsoluteSample, start, end);
    assert |Interval(start, end)| == end - start;
    Positive(p);
    PeakOfWindow(p, start, end);
    DurationTimesRate(end - start, p.sampleRateHz);
  }

  lemma BoundsOf(p: Parsed, window: Window, r: Inspection)
    requires WellFormed(p) && r.Inspected? && r.startMs == window.Start() && r.endMs == EndMs(p, window)
    ensures BoundsAre(p, window, r)
  {
    hide DurationMs, LastFor;
    DurationTimesRate(p.frameCount, p.sampleRateHz);
  }

  /** The report of any window of any capture, told from the frames that overlap it. */
  lemma InspectionTells(p: Parsed, t: Threshold, window: Window)
    requires WellFormed(p)
    ensures Tells(p, t, window, Inspect(p, t, window))
  {
    hide WellFormed, StartFrame, EndFrame, LoudFrames, LoudMagnitudes, LoudIn, FramesIn, PeaksOf, MeasuresAre, BoundsAre, VerdictIs, InspectFrames;
    var start, end := StartFrame(p, window), EndFrame(p, window);
    FramesInWindow(p, t.minimumPeakAbsoluteSample, window);
    if start < end {
      PeaksOfLoud(p, t.minimumPeakAbsoluteSample, start, end);
      MeasuresOf(p, t, start, end, window.Start(), EndMs(p, window));
      InspectedBounds(p, t, start, end, window.Start(), EndMs(p, window));
      BoundsOf(p, window, Inspect(p, t, window));
      assert start in FramesIn(p, window);
    }
  }

  lemma InspectedBounds(p: Parsed, t: Threshold, start: nat, end: nat, startMs: real, endMs: real)
    requires IsWindow(p, start, end)
    ensures var r := InspectFrames(p, t, start, end, startMs, endMs); r.Inspected? && r.startMs == startMs && r.endMs == endMs && VerdictIs(t, r)
  {
    hide WellFormed, WindowPeak, LoudFrames, LoudMagnitudes, DurationMs;
    Positive(p);
  }

  /** `inspectParsedWavPcm` on a capture the reader accepted. */
  method InspectParsedWavPcm(parsed: Parsed, threshold: Threshold, window: Window) returns (r: Inspection)
    requires WellFormed(parsed)
    ensures r == Inspect(parsed, threshold, window)
    ensures Tells(parsed, threshold, window, r)
  {
    hide WellFormed, Magnitude, SampleMagnitude, IsLoud, LoudFrames, LoudMagnitudes, StartFrame, EndFrame, FramesAt, DurationMs, Passes, Tells;
    InspectionTells(parsed, threshold, window);
    var minimum := threshold.minimumPeakAbsoluteSample;
    var startFrame, endFrame := StartFrame(parsed, window), EndFrame(parsed, window);
    if endFrame <= startFrame {
      return EmptyWindow;
    }
    var peakAbsoluteSample, nonSilentFrameCount := 0, 0;
    var nonSilentSampleMagnitudes: set<nat> := {};
    NothingYet(parsed, minimum, startFrame);
    for frame := startFrame to endFrame
      invariant peakAbsoluteSample == WindowPeak(parsed, startFrame, frame)
      invariant nonSilentFrameCount == |LoudFrames(parsed, minimum, startFrame, frame)|
      invariant nonSilentSampleMagnitudes == LoudMagnitudes(parsed, minimum, startFrame, frame)
    {
      var framePeak := 0;
      for channel := 0 to parsed.channels
        invariant framePeak == PeakOfChannels(parsed, frame, channel)
      {
        framePeak := Max(framePeak, Magnitude(parsed, frame, channel));
      }
      peakAbsoluteSample := Max(peakAbsoluteSample, framePeak);
      OneMoreFrame(parsed, minimum, startFrame, frame);
      LoudnessTest(parsed, minimum, frame);
      if framePeak as real >= minimum {
        nonSilentFrameCount := nonSilentFrameCount + 1;
        nonSilentSampleMagnitudes := nonSilentSampleMagnitudes + {framePeak};
      }
    }
    var frameCount := endFrame - startFrame;
    Positive(parsed);
    var durationMs := DurationMs(frameCount, parsed.sampleRateHz);
    var passed := Passes(threshold, nonSilentFrameCount, peakAbsoluteSample, durationMs, |nonSilentSampleMagnitudes|);
    r := Inspected(passed, frameCount, durationMs, nonSilentFrameCount, peakAbsoluteSample, |nonSilentSampleMagnitudes|,
                   window.Start(), EndMs(parsed, window));
  }

  lemma Positive(p: Parsed)
    requires WellFormed(p)
    ensures p.sampleRateHz > 0 && p.channels > 0
  {
  }

  lemma LoudnessTest(p: Parsed, minimum: real, frame: nat)
    requires WellFormed(p) && frame < p.frameCount
    ensures IsLoud(p, minimum, frame) <==> PeakOfChannels(p, frame, p.channels) as real >= minimum
  {
  }

  lemma NothingYet(p: Parsed, minimum: real, start: nat)
    requires IsWindow(p, start, start)
    ensures LoudFrames(p, minimum, start, start) == {} && LoudMagnitudes(p, minimum, start, start) == {}
  {
  }

  // ----- monotonicity in the window

  /** Every measure is at least as large, and a pass stays a pass. */
  predicate AtLeast(wide: Inspection, narrow: Inspection) {
    && wide.Inspected? && narrow.Inspected?
    && wide.frameCount >= narrow.frameCount && wide.durationMs >= narrow.durationMs
    && wide.nonSilentFrameCount >= narrow.nonSilentFrameCount
    && wide.peakAbsoluteSample >= narrow.peakAbsoluteSample
    && wide.distinctMagnitudes >= narrow.distinctMagnitudes
    && (narrow.passed ==> wide.passed)
  }

  lemma QuotientIsMonotone(a: real, b: real, d: real)
    requires a <= b && d > 0.0
    ensures a / d <= b / d
  {
    var x, y := a / d, b / d;
    assert x * d == a && y * d == b;
    assert x > y ==> (x - y) * d > 0.0;
  }

  lemma DurationIsMonotone(a: nat, b: nat, rate: nat)
    requires a <= b && rate > 0
    ensures DurationMs(a, rate) <= DurationMs(b, rate)
  {
    QuotientIsMonotone(a as real, b as real, rate as real);
  }

  lemma WiderFrames(p: Parsed, t: Threshold, start: nat, end: nat, from: nat, to: nat, s: real, e: real, s': real, e': real)
    requires IsWindow(p, from, to) && from <= start <= end <= to
    ensures AtLeast(InspectFrames(p, t, from, to, s', e'), InspectFrames(p, t, start, end, s, e))
  {
    hide WellFormed, LoudFrames, LoudMagnitudes, WindowPeak, DurationMs;
    var minimum := t.minimumPeakAbsoluteSample;
    Positive(p);
    AdjacentPeak(p, from, start, to);
    AdjacentPeak(p, start, end, to);
    AdjacentLoudness(p, minimum, from, start, to);
    AdjacentLoudness(p, minimum, start, end, to);
    CardinalityIsMonotone(LoudMagnitudes(p, minimum, start, end), LoudMagnitudes(p, minimum, from, to));
    DurationIsMonotone(end - start, to - from, p.sampleRateHz);
  }

  /** `wide` covers `narrow`, comparing the windows that the report names. */
  predicate Covers(p: Parsed, wide: Window, narrow: Window)
    requires WellFormed(p)
  {
    wide.Start() <= narrow.Start() && (wide.End().None? || EndMs(p, narrow) <= EndMs(p, wide))
  }

  /** Containment of the windows as they are asked for: a bound that is absent contains every bound. */
  predicate Contains(wide: Window, narrow: Window) {
    wide.Start() <= narrow.Start() && (wide.end.Some? ==> narrow.end.Some? && narrow.end.value <= wide.end.value)
  }

  /** A window that is contained as asked for is covered, unless it ends before it starts and starts behind the other's end. */
  lemma ContainedIsCoveredIff(p: Parsed, wide: Window, narrow: Window)
    requires WellFormed(p) && Contains(wide, narrow)
    ensures Covers(p, wide, narrow) <==> wide.End().None? || narrow.Start() <= wide.End().value
  {
    hide WellFormed;
  }

  lemma FramesAreMonotone(a: real, b: real, rate: nat)
    requires 0.0 <= a <= b
    ensures FramesAt(a, rate) <= FramesAt(b, rate)
    ensures FramesAt(a, rate).Floor <= FramesAt(b, rate).Floor
    ensures Ceil(FramesAt(a, rate)) <= Ceil(FramesAt(b, rate))
  {
    QuotientIsMonotone(a, b, 1000.0);
    var x, y, r := a / 1000.0, b / 1000.0, rate as real;
    assert (y - x) * r >= 0.0;
    assert y * r - x * r == (y - x) * r;
  }

  lemma WholeDuration(n: nat, rate: nat)
    requires rate > 0
    ensures DurationMs(n, rate) >= 0.0
    ensures FramesAt(DurationMs(n, rate), rate) == n as real
  {
    var q, r := (n as real) / (rate as real), rate as real;
    assert q * r == n as real;
    QuotientIsMonotone(0.0, n as real, r);
    assert (q * 1000.0) / 1000.0 == q;
  }

  lemma CoveringFrames(p: Parsed, wide: Window, narrow: Window)
    requires WellFormed(p) && Covers(p, wide, narrow)
    ensures StartFrame(p, wide) <= StartFrame(p, narrow) && EndFrame(p, narrow) <= EndFrame(p, wide)
  {
    hide DurationMs, FramesAt;
    Positive(p);
    FramesAreMonotone(wide.Start(), narrow.Start(), p.sampleRateHz);
    if wide.End().Some? {
      WholeDuration(p.frameCount, p.sampleRateHz);
      FramesAreMonotone(EndMs(p, narrow), EndMs(p, wide), p.sampleRateHz);
    }
  }

  /** A window that inspects at least the same frames lowers no measure, and does not turn "passed" into "silent". */
  lemma MoreFramesKeepPassing(p: Parsed, t: Threshold, wide: Window, narrow: Window)
    requires WellFormed(p) && Inspect(p, t, narrow).Inspected?
    requires StartFrame(p, wide) <= StartFrame(p, narrow) && EndFrame(p, narrow) <= EndFrame(p, wide)
    ensures AtLeast(Inspect(p, t, wide), Inspect(p, t, narrow))
  {
    hide WellFormed, InspectFrames, StartFrame, EndFrame, EndMs, AtLeast;
    WiderFrames(p, t, StartFrame(p, narrow), EndFrame(p, narrow), StartFrame(p, wide), EndFrame(p, wide),
                narrow.Start(), EndMs(p, narrow), wide.Start(), EndMs(p, wide));
  }

  /** Widening a window never lowers a measure, and never turns "passed" into "silent". */
  lemma WideningKeepsPassing(p: Parsed, t: Threshold, wide: Window, narrow: Window)
    requires WellFormed(p) && Covers(p, wide, narrow) && Inspect(p, t, narrow).Inspected?
    ensures AtLeast(Inspect(p, t, wide), Inspect(p, t, narrow))
  {
    hide WellFormed, Inspect, StartFrame, EndFrame, Covers, AtLeast;
    CoveringFrames(p, wide, narrow);
    MoreFramesKeepPassing(p, t, wide, narrow);
  }

  // ----- exactly when a pass is kept

  ghost predicate PassesIn(p: Parsed, t: Threshold, window: Window) {
    WellFormed(p) && Inspect(p, t, window).Inspected? && Inspect(p, t, window).passed
  }

  /** Whatever the samples and the threshold, a pass in `narrow` is a pass in `wide`. */
  ghost predicate KeepsEveryPass(rate: nat, frameCount: nat, wide: Window, narrow: Window) {
    forall p: Parsed, t: Threshold :: PassesIn(p, t, narrow) && p.sampleRateHz == rate && p.frameCount == frameCount ==> PassesIn(p, t, wide)
  }

  /** `wide` inspects every frame that `narrow` inspects. */
  predicate InspectsAll(rate: nat, frameCount: nat, wide: Window, narrow: Window) {
    || FrameBound(rate, frameCount, narrow) <= FirstFrame(rate, narrow)
    || (FirstFrame(rate, wide) <= FirstFrame(rate, narrow) && FrameBound(rate, frameCount, narrow) <= FrameBound(rate, frameCount, wide))
  }

  /** An 8-bit mono capture that is silent but for frame `k`. */
  function OneLoudFrame(rate: nat, frameCount: nat, k: nat): (p: Parsed)
    requires rate > 0 && frameCount > 0
    ensures WellFormed(p)
  {
    Parsed(rate, 1, frameCount, 1, 1, 8, seq(frameCount, i requires 0 <= i < frameCount => if i == k then 255 else 128))
  }

  /** Any sound passes. */
  const ANY_SOUND := Threshold(1.0, 1.0, 0.0, 1.0)

  lemma OneLoudPeak(rate: nat, frameCount: nat, k: nat, f: nat)
    requires rate > 0 && f < frameCount
    ensures FramePeak(OneLoudFrame(rate, frameCount, k), f) == if f == k then 127 else 0
  {
    var p := OneLoudFrame(rate, frameCount, k);
    assert f * 1 + 0 * 1 == f;
    assert PeakOfChannels(p, f, 0) == 0;
    assert Magnitude(p, f, 0) == Abs((p.data[f] as int) - 128);
  }

  /** It passes exactly in the windows that inspect that frame. */
  lemma OneLoudFramePassesIff(rate: nat, frameCount: nat, k: nat, window: Window)
    requires rate > 0 && frameCount > 0
    ensures PassesIn(OneLoudFrame(rate, frameCount, k), ANY_SOUND, window)
       <==> FirstFrame(rate, window) <= k < FrameBound(rate, frameCount, window)
  {
    hide OneLoudFrame, FramePeak, FirstFrame, FrameBound, DurationMs, LoudFrames, LoudMagnitudes, WindowPeak;
    var p := OneLoudFrame(rate, frameCount, k);
    OneLoudExtent(rate, frameCount, k);
    var start, end := StartFrame(p, window), EndFrame(p, window);
    if start < end {
      OneLoudMeasures(p, k, start, end) by {
        forall f: nat | f < frameCount ensures FramePeak(p, f) == if f == k then 127 else 0 {
          OneLoudPeak(rate, frameCount, k, f);
        }
      }
      DurationIsPositive(end - start, rate);
    }
  }

  lemma OneLoudExtent(rate: nat, frameCount: nat, k: nat)
    requires rate > 0 && frameCount > 0
    ensures var p := OneLoudFrame(rate, frameCount, k); p.sampleRateHz == rate && p.frameCount == frameCount
  {
  }

  lemma DurationIsPositive(frames: nat, rate: nat)
    requires rate > 0
    ensures DurationMs(frames, rate) >= 0.0
  {
    WholeDuration(frames, rate);
  }

  lemma OneLoudMeasures(p: Parsed, k: nat, start: nat, end: nat)
    requires IsWindow(p, start, end) && start < end
    requires forall f: nat :: f < p.frameCount ==> FramePeak(p, f) == if f == k then 127 else 0
    ensures start <= k < end ==> |LoudFrames(p, 1.0, start, end)| == |LoudMagnitudes(p, 1.0, start, end)| == 1 && WindowPeak(p, start, end) == 127
    ensures !(start <= k < end) ==> |LoudFrames(p, 1.0, start, end)| == 0
  {
    hide FramePeak, WellFormed, WindowPeak;
    var frames, magnitudes := LoudFrames(p, 1.0, start, end), LoudMagnitudes(p, 1.0, start, end);
    WindowPeakIsLargest(p, start, end);
    if start <= k < end {
      assert IsLoud(p, 1.0, k);
      assert frames == {k} && magnitudes == {127};
    } else {
      assert frames == {};
    }
  }

  /**
   The exact condition: at a sample rate and number of frames, every capture and threshold that
   passes in `narrow` passes in `wide` if and only if `wide` inspects every frame of `narrow`.
   */
  lemma PassIsKeptIff(rate: nat, frameCount: nat, wide: Window, narrow: Window)
    requires rate > 0 && frameCount > 0
    ensures KeepsEveryPass(rate, frameCount, wide, narrow) <==> InspectsAll(rate, frameCount, wide, narrow)
  {
    hide FirstFrame, FrameBound, WellFormed, Inspect, OneLoudFrame;
    if InspectsAll(rate, frameCount, wide, narrow) {
      forall p: Parsed, t: Threshold | PassesIn(p, t, narrow) && p.sampleRateHz == rate && p.frameCount == frameCount
        ensures PassesIn(p, t, wide)
      {
        InspectedMeans(p, t, narrow);
        MoreFramesKeepPassing(p, t, wide, narrow);
      }
    } else {
      var first, bound := FirstFrame(rate, narrow), FrameBound(rate, frameCount, narrow);
      var k := if first < FirstFrame(rate, wide) then first else bound - 1;
      OneLoudExtent(rate, frameCount, k);
      OneLoudFramePassesIff(rate, frameCount, k, narrow);
      OneLoudFramePassesIff(rate, frameCount, k, wide);
    }
  }

  lemma InspectedMeans(p: Parsed, t: Threshold, window: Window)
    requires WellFormed(p)
    ensures Inspect(p, t, window).Inspected? <==> StartFrame(p, window) < EndFrame(p, window)
  {
    hide StartFrame, EndFrame;
  }

  /** A window contained as asked for keeps its pass unless it ends before it starts, and then exactly if it inspects no frame behind the wide one. */
  lemma ContainedKeepsPassIff(rate: nat, frameCount: nat, wide: Window, narrow: Window)
    requires rate > 0 && frameCount > 0 && Contains(wide, narrow)
    ensures KeepsEveryPass(rate, frameCount, wide, narrow) <==>
            || FrameBound(rate, frameCount, narrow) <= FirstFrame(rate, narrow)
            || FrameBound(rate, frameCount, narrow) <= FrameBound(rate, frameCount, wide)
    ensures narrow.end.None? || narrow.Start() <= narrow.end.value ==> KeepsEveryPass(rate, frameCount, wide, narrow)
  {
    hide FramesAt, KeepsEveryPass;
    PassIsKeptIff(rate, frameCount, wide, narrow);
    FramesAreMonotone(wide.Start(), narrow.Start(), rate);
    if wide.End().Some? && narrow.End().Some? && narrow.End().value <= wide.End().value {
      FramesAreMonotone(narrow.End().value, wide.End().value, rate);
    }
  }

  /** Ten frames, one a millisecond: a contained window that ends before it starts loses its pass; another does not, though it is not covered. */
  lemma ContainedPassIsLost()
    ensures var wide, narrow := Window(Some(0.0), Some(1.0)), Window(Some(5.5), Some(1.0));
            && Contains(wide, narrow) && !KeepsEveryPass(1000, 10, wide, narrow)
            && PassesIn(OneLoudFrame(1000, 10, 5), ANY_SOUND, narrow) && !PassesIn(OneLoudFrame(1000, 10, 5), ANY_SOUND, wide)
    ensures var wide, narrow := Window(Some(0.0), Some(5.2)), Window(Some(5.4), Some(1.0));
            && Contains(wide, narrow) && KeepsEveryPass(1000, 10, wide, narrow)
            && !Covers(OneLoudFrame(1000, 10, 5), wide, narrow)
  {
    hide KeepsEveryPass, PassesIn, OneLoudFrame;
    MillisecondFrames();
    var wide, narrow := Window(Some(0.0), Some(1.0)), Window(Some(5.5), Some(1.0));
    PassIsKeptIff(1000, 10, wide, narrow);
    OneLoudFramePassesIff(1000, 10, 5, wide);
    OneLoudFramePassesIff(1000, 10, 5, narrow);
    PassIsKeptIff(1000, 10, Window(Some(0.0), Some(5.2)), Window(Some(5.4), Some(1.0)));
  }

  lemma MillisecondFrames()
    ensures FirstFrame(1000, Window(Some(0.0), Some(1.0))) == 0 && FrameBound(1000, 10, Window(Some(0.0), Some(1.0))) == 1
    ensures FirstFrame(1000, Window(Some(5.5), Some(1.0))) == 5 && FrameBound(1000, 10, Window(Some(5.5), Some(1.0))) == 6
    ensures FirstFrame(1000, Window(Some(0.0), Some(5.2))) == 0 && FrameBound(1000, 10, Window(Some(0.0), Some(5.2))) == 6
    ensures FirstFrame(1000, Window(Some(5.4), Some(1.0))) == 5 && FrameBound(1000, 10, Window(Some(5.4), Some(1.0))) == 6
  {
  }

  /** A frame is inspected exactly when the time it lasts overlaps the window. */
  lemma InspectedFramesOverlapTheWindow(p: Parsed, window: Window, frame: nat)
    requires WellFormed(p) && frame < p.frameCount
    ensures StartFrame(p, window) <= frame < EndFrame(p, window)
       <==> && FramesAt(window.Start(), p.sampleRateHz) < (frame + 1) as real
            && (window.End().Some? ==> (frame as real) < FramesAt(window.End().value, p.sampleRateHz))
  {
    hide FramesAt;
  }

  // ----- the captures of the fake host

  lemma {:induction false} SampleAt(frames: seq<Frame>, k: nat)
    requires ValidFrames(frames) && k < |frames|
    ensures var data := FramesToBytes(frames);
            I16LE(data, 4 * k) == frames[k].left && I16LE(data, 4 * k + 2) == frames[k].right
  {
    hide SampleBytes;
    var last := |frames| - 1;
    var data, before := FramesToBytes(frames), FramesToBytes(frames[..last]);
    assert frames[last] in frames && frames[last].Valid();
    var left, right := SampleBytes(frames[last].left), SampleBytes(frames[last].right);
    assert data == before + (left + right);
    if k < last {
      SampleAt(frames[..last], k);
      Same(data, 4 * k, before, 4 * k);
      Same(data, 4 * k + 2, before, 4 * k + 2);
    } else {
      Same(data, 4 * k, left, 0);
      Same(data, 4 * k + 2, right, 0);
    }
  }

  lemma Same(a: Buffer, i: nat, b: Buffer, j: nat)
    requires i + 2 <= |a| && j + 2 <= |b| && a[i] == b[j] && a[i + 1] == b[j + 1]
    ensures I16LE(a, i) == I16LE(b, j)
  {
  }

  /** The capture the reader returns for written frames. */
  function Written(frames: seq<Frame>): (p: Parsed)
    requires ValidFrames(frames) && frames != []
    ensures WellFormed(p)
  {
    Parsed(48000, 2, |frames|, 4, 2, 16, FramesToBytes(frames))
  }

  lemma WrittenPeak(frames: seq<Frame>, k: nat)
    requires ValidFrames(frames) && k < |frames|
    ensures FramePeak(Written(frames), k) == Max(Abs(frames[k].left), Abs(frames[k].right))
  {
    hide FramesToBytes, ValidFrames, I16LE;
    var p := Written(frames);
    SampleAt(frames, k);
    assert Magnitude(p, k, 0) == SampleMagnitude(p.data, 4 * k, 16);
    assert Magnitude(p, k, 1) == SampleMagnitude(p.data, 4 * k + 2, 16);
    ChannelPair(p, k);
  }

  lemma ChannelPair(p: Parsed, k: nat)
    requires WellFormed(p) && p.channels == 2 && k < p.frameCount
    ensures FramePeak(p, k) == Max(Magnitude(p, k, 0), Magnitude(p, k, 1))
  {
    hide Magnitude, WellFormed;
    assert PeakOfChannels(p, k, 1) == Max(PeakOfChannels(p, k, 0), Magnitude(p, k, 0));
  }

  function PatternSample(frame: nat): int {
    512 * (frame % 4 + 1)
  }

  /** The tone (512, 1024, 1536, 2048, and again) with the right channel inverted. */
  function Tone(frameCount: nat): (frames: seq<Frame>)
    ensures |frames| == frameCount && ValidFrames(frames)
    ensures forall k :: 0 <= k < frameCount ==> frames[k] == Frame(PatternSample(k), -PatternSample(k))
  {
    seq(frameCount, k requires 0 <= k < frameCount => Frame(PatternSample(k), -PatternSample(k)))
  }

  function Silence(frameCount: nat): (frames: seq<Frame>)
    ensures |frames| == frameCount && ValidFrames(frames)
    ensures forall k :: 0 <= k < frameCount ==> frames[k] == Frame(0, 0)
  {
    seq(frameCount, k requires 0 <= k < frameCount => Frame(0, 0))
  }

  lemma {:induction false} EveryFrameIsLoud(p: Parsed, minimum: real, end: nat)
    requires IsWindow(p, 0, end) && forall f: nat :: f < end ==> IsLoud(p, minimum, f)
    ensures |LoudFrames(p, minimum, 0, end)| == end
  {
    hide IsLoud, WellFormed, LoudFrames, LoudMagnitudes;
    if end == 0 {
      NothingYet(p, minimum, 0);
    } else {
      EveryFrameIsLoud(p, minimum, end - 1);
      OneMoreFrame(p, minimum, 0, end - 1);
    }
  }

  lemma ToneIsLoud(n: nat)
    requires n >= 4
    ensures var p := Written(Tone(n));
            && |LoudFrames(p, 512.0, 0, n)| == n
            && LoudMagnitudes(p, 512.0, 0, n) == {512, 1024, 1536, 2048}
            && WindowPeak(p, 0, n) == 2048
  {
    hide Written, FramePeak, LoudFrames;
    var p := Written(Tone(n));
    Extent(Tone(n));
    forall k: nat | k < n ensures FramePeak(p, k) == PatternSample(k) && IsLoud(p, 512.0, k) {
      WrittenPeak(Tone(n), k);
    }
    EveryFrameIsLoud(p, 512.0, n);
    MagnitudesOfTone(p, n);
    WindowPeakIsLargest(p, 0, n);
    assert FramePeak(p, 3) == 2048;
  }

  lemma Extent(frames: seq<Frame>)
    requires ValidFrames(frames) && frames != []
    ensures IsWindow(Written(frames), 0, |frames|)
  {
  }

  lemma MagnitudesOfTone(p: Parsed, n: nat)
    requires IsWindow(p, 0, n) && n >= 4
    requires forall k: nat :: k < n ==> FramePeak(p, k) == PatternSample(k)
    ensures LoudMagnitudes(p, 512.0, 0, n) == {512, 1024, 1536, 2048}
  {
    hide FramePeak, WellFormed;
    var magnitudes := LoudMagnitudes(p, 512.0, 0, n);
    assert FramePeak(p, 0) == 512 && FramePeak(p, 1) == 1024 && FramePeak(p, 2) == 1536 && FramePeak(p, 3) == 2048;
    assert IsLoud(p, 512.0, 0) && IsLoud(p, 512.0, 1) && IsLoud(p, 512.0, 2) && IsLoud(p, 512.0, 3);
  }

  /** Writing the tone, reading it back and inspecting all of it. */
  lemma ToneIsReported(n: nat, t: Threshold)
    requires 4 <= n <= MAXIMUM_FRAMES && t.minimumPeakAbsoluteSample == 512.0
    ensures Parse(Layout(Tone(n))) == Ok(Written(Tone(n)))
    ensures var r := Inspect(Written(Tone(n)), t, Window(None, None));
            && r.Inspected? && r.frameCount == n && r.nonSilentFrameCount == n
            && r.peakAbsoluteSample == 2048 && r.distinctMagnitudes == 4
  {
    hide LoudFrames, LoudMagnitudes, WindowPeak, Parse, FramesToBytes;
    WrittenIsRead(Tone(n));
    ToneIsLoud(n);
    assert StartFrame(Written(Tone(n)), Window(None, None)) == 0;
  }

  /** The tone passes exactly when it is long enough and four magnitudes are enough. */
  lemma ToneVerdict(n: nat, t: Threshold)
    requires 4 <= n <= MAXIMUM_FRAMES && t.minimumPeakAbsoluteSample == 512.0
    ensures Inspect(Written(Tone(n)), t, Window(None, None)).Inspected?
    ensures Inspect(Written(Tone(n)), t, Window(None, None)).passed
       <==> n as real >= t.minimumNonSilentFrames && (n as real) / 48.0 >= t.minimumDurationMs && 4.0 >= t.minimumDistinctMagnitudes
  {
    hide LoudFrames, LoudMagnitudes, WindowPeak, FramesToBytes;
    ToneIsReported(n, t);
    assert StartFrame(Written(Tone(n)), Window(None, None)) == 0;
    assert DurationMs(n, 48000) == (n as real) / 48.0;
  }

  lemma SilentPeak(n: nat)
    requires n > 0
    ensures WindowPeak(Written(Silence(n)), 0, n) == 0
  {
    hide Written, FramePeak;
    var p := Written(Silence(n));
    Extent(Silence(n));
    forall k: nat | k < n ensures FramePeak(p, k) == 0 {
      WrittenPeak(Silence(n), k);
    }
    WindowPeakIsLargest(p, 0, n);
  }

  lemma SilenceIsSilent(n: nat, t: Threshold)
    requires n > 0 && t.minimumPeakAbsoluteSample > 0.0
    ensures Inspect(Written(Silence(n)), t, Window(None, None)).Inspected?
    ensures !Inspect(Written(Silence(n)), t, Window(None, None)).passed
  {
    hide LoudFrames, LoudMagnitudes, WindowPeak, FramesToBytes;
    SilentPeak(n);
    assert StartFrame(Written(Silence(n)), Window(None, None)) == 0;
  }

  ghost predicate PassesByDefault(frames: seq<Frame>)
    requires ValidFrames(frames) && frames != []
  {
    var r := Inspect(Written(frames), DEFAULT_AUDIO_THRESHOLD, Window(None, None));
    r.Inspected? && r.passed
  }

  /** The fake host's own captures: the tone just passes the default threshold, and silence does not. */
  lemma DefaultCaptures()
    ensures PassesByDefault(Tone(24000)) && !PassesByDefault(Tone(23999)) && !PassesByDefault(Silence(24000))
  {
    hide Inspect, Written, Tone, Silence;
    ToneVerdict(24000, DEFAULT_AUDIO_THRESHOLD);
    ToneVerdict(23999, DEFAULT_AUDIO_THRESHOLD);
    SilenceIsSilent(24000, DEFAULT_AUDIO_THRESHOLD);
  }
}
