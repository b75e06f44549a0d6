/**
 `boundedOutputCapture` of scripts/testbed/full-workflow-orchestrator.ts: an incremental
 head/tail buffer that agrees with a one-shot function of the whole output stream.
 */
module OutputCapture {
  import opened Bytes
  import opened Decimal

  const CHILD_OUTPUT_CAPTURE_BYTES: nat := 512 * 1024
  const CHILD_OUTPUT_EDGE_BYTES: nat := 255 * 1024
  const NEWLINE: Byte := 0x0A

  // ----- the one-shot form

  function Prefix(s: Buffer, n: nat): Buffer {
    if |s| <= n then s else s[..n]
  }

  /** `subarray(-n)` */
  function Suffix(s: Buffer, n: nat): Buffer {
    if |s| <= n then s else s[|s| - n..]
  }

  /** The five variables of the closure. */
  datatype State = State(complete: Buffer, head: Buffer, tail: Buffer, totalBytes: nat, truncated: bool)

  /** What the variables must hold after the stream `s`, however it was cut into chunks. */
  function StateOf(s: Buffer): State {
    if |s| <= CHILD_OUTPUT_CAPTURE_BYTES then State(s, [], [], |s|, false)
    else State([], s[..CHILD_OUTPUT_EDGE_BYTES], s[|s| - CHILD_OUTPUT_EDGE_BYTES..], |s|, true)
  }

  lemma SuffixOfSuffix(s: Buffer, chunk: Buffer, n: nat)
    requires |s| >= n
    ensures Suffix(Suffix(s, n) + chunk, n) == Suffix(s + chunk, n)
  {
  }

  /** Index of the last newline, or -1. */
  function LastNewline(s: Buffer): (i: int)
    ensures -1 <= i < |s|
    ensures i >= 0 ==> s[i] == NEWLINE
    ensures forall k :: i < k < |s| ==> s[k] != NEWLINE
  {
    if s == [] then -1
    else if s[|s| - 1] == NEWLINE then |s| - 1
    else LastNewline(s[..|s| - 1])
  }

  /** Index of the first newline, or -1. */
  function FirstNewline(s: Buffer): (i: int)
    ensures -1 <= i < |s|
    ensures i >= 0 ==> s[i] == NEWLINE
    ensures forall k :: 0 <= k < (if i < 0 then |s| else i) ==> s[k] != NEWLINE
  {
    if s == [] then -1
    else if s[0] == NEWLINE then 0
    else
      var i := FirstNewline(s[1..]);
      if i < 0 then -1 else i + 1
  }

  /** The bytes of an ASCII text. */
  function Text(s: string): (bytes: Buffer)
    ensures |bytes| == |s|
  {
    seq(|s|, i requires 0 <= i < |s| => s[i] as int % 128)
  }

  function Marker(totalBytes: nat): Buffer {
    Text("\n...[bounded child output truncated; observedBytes=") + Text(Digits(totalBytes)) + Text("]...\n")
  }

  /** The captured bytes, before they are decoded and redacted. */
  function Captured(st: State): Buffer {
    if st.truncated then
      var lineEnd, lineStart := LastNewline(st.head), FirstNewline(st.tail);
      st.head[..lineEnd + 1]
      + Marker(st.totalBytes)
      + (if lineStart >= 0 then st.tail[lineStart + 1..] else [])
    else st.complete
  }

  datatype Output = Output(text: string, observedBytes: nat, truncated: bool)

  // ----- the closure

  class BoundedOutputCapture {
    var complete: Buffer
    var head: Buffer
    var tail: Buffer
    var totalBytes: nat
    var truncated: bool

    /** Everything appended so far. */
    ghost var stream: Buffer

    ghost predicate Valid()
      reads this
    {
      State(complete, head, tail, totalBytes, truncated) == StateOf(stream)
    }

    constructor ()
      ensures Valid() && stream == []
    {
      complete, head, tail, totalBytes, truncated := [], [], [], 0, false;
      stream := [];
    }

    method Append(bytes: Buffer)
      requires Valid()
      modifies this
      ensures Valid() && stream == old(stream) + bytes
    {
      stream := stream + bytes;
      totalBytes := totalBytes + |bytes|;
      if !truncated && |complete| + |bytes| <= CHILD_OUTPUT_CAPTURE_BYTES {
        complete := complete + bytes;
        return;
      }
      if !truncated {
        var combined := complete + bytes;
        head := Prefix(combined, CHILD_OUTPUT_EDGE_BYTES);
        tail := Suffix(combined, CHILD_OUTPUT_EDGE_BYTES);
        complete := [];
        truncated := true;
        return;
      }
      SuffixOfSuffix(old(stream), bytes, CHILD_OUTPUT_EDGE_BYTES);
      tail := Suffix(tail + bytes, CHILD_OUTPUT_EDGE_BYTES);
    }

    /** `finish`, with decoding and redaction as one function of the captured bytes. */
    method Finish(redactedText: Buffer -> string) returns (output: Output)
      requires Valid()
      ensures output == Output(redactedText(Captured(StateOf(stream))), |stream|, |stream| > CHILD_OUTPUT_CAPTURE_BYTES)
    {
      hide Marker, LastNewline, FirstNewline;
      var marker := if truncated then Marker(totalBytes) else [];
      var headLineEnd := LastNewline(head);
      var tailLineStart := FirstNewline(tail);
      var completeHead := if headLineEnd >= 0 then head[..headLineEnd + 1] else [];
      var completeTail := if tailLineStart >= 0 then tail[tailLineStart + 1..] else [];
      assert headLineEnd < 0 ==> completeHead == head[..headLineEnd + 1];
      var captured := if truncated then completeHead + marker + completeTail else complete;
      output := Output(redactedText(captured), totalBytes, truncated);
    }
  }

  /** Any cut of the stream into chunks gives the output of the stream as a whole. */
  method CaptureChunks(chunks: seq<Buffer>, redactedText: Buffer -> string) returns (output: Output)
    ensures var stream := Concat(chunks);
            output == Output(redactedText(Captured(StateOf(stream))), |stream|, |stream| > CHILD_OUTPUT_CAPTURE_BYTES)
  {
    var capture := new BoundedOutputCapture();
    for i := 0 to |chunks|
      invariant capture.Valid() && capture.stream == Concat(chunks[..i])
    {
      assert chunks[..i + 1] == chunks[..i] + [chunks[i]];
      ConcatAppend(chunks[..i], [chunks[i]]);
      assert Concat([chunks[i]]) == chunks[i];
      capture.Append(chunks[i]);
    }
    assert chunks[..|chunks|] == chunks;
    output := capture.Finish(redactedText);
  }

  // ----- what is emitted

  /** `k` is the start of a line of the stream: its beginning, or just after a newline. */
  predicate StartsLine(stream: Buffer, k: nat) {
    k == 0 || (k <= |stream| && stream[k - 1] == NEWLINE)
  }

  /** A short stream is emitted whole. */
  lemma ShortStreamIsWhole(stream: Buffer)
    requires |stream| <= CHILD_OUTPUT_CAPTURE_BYTES
    ensures Captured(StateOf(stream)) == stream
  {
  }

  /** The last line boundary within the first `edge` bytes. */
  lemma PrefixEndsAtLine(stream: Buffer, edge: nat)
    requires edge <= |stream|
    ensures var end := LastNewline(stream[..edge]) + 1;
            StartsLine(stream, end) && forall k | end < k <= edge :: !StartsLine(stream, k)
  {
    hide LastNewline;
    var head := stream[..edge];
    forall k | LastNewline(head) + 1 < k <= edge
      ensures !StartsLine(stream, k)
    {
      assert stream[k - 1] == head[k - 1];
    }
  }

  /** The first line start behind a newline at or after `cut`. */
  lemma SuffixStartsAtLine(stream: Buffer, cut: nat)
    requires cut <= |stream|
    ensures var i := FirstNewline(stream[cut..]);
            && (i >= 0 ==> StartsLine(stream, cut + i + 1))
            && forall k | cut < k < (if i >= 0 then cut + i + 1 else |stream|) :: !StartsLine(stream, k)
  {
    hide FirstNewline;
    var tail := stream[cut..];
    var i := FirstNewline(tail);
    forall k | cut < k < (if i >= 0 then cut + i + 1 else |stream|)
      ensures !StartsLine(stream, k)
    {
      assert stream[k - 1] == tail[k - 1 - cut];
    }
  }

  lemma CapturedLong(stream: Buffer)
    requires |stream| > CHILD_OUTPUT_CAPTURE_BYTES
    ensures var edge := CHILD_OUTPUT_EDGE_BYTES;
            var head, tail := stream[..edge], stream[|stream| - edge..];
            var lineStart := FirstNewline(tail);
            Captured(StateOf(stream)) == head[..LastNewline(head) + 1] + Marker(|stream|)
                                         + tail[if lineStart >= 0 then lineStart + 1 else edge..]
  {
    hide Marker, LastNewline, FirstNewline;
  }

  lemma PrefixOfHead(stream: Buffer, edge: nat, end: nat)
    requires end <= edge <= |stream|
    ensures stream[..edge][..end] == stream[..end]
  {
  }

  lemma SuffixOfTail(stream: Buffer, cut: nat, start: nat)
    requires cut + start <= |stream|
    ensures stream[cut..][start..] == stream[cut + start..]
  {
  }

  /**
   A long stream is emitted as the longest whole-line prefix within its first 255 KiB, the
   marker with the number of bytes observed, and the longest suffix within its last 255 KiB
   that follows a newline there (nothing, when there is none). Prefix and suffix cannot overlap.
   */
  lemma LongStreamIsCutAtLines(stream: Buffer) returns (prefixEnd: nat, suffixStart: nat)
    requires |stream| > CHILD_OUTPUT_CAPTURE_BYTES
    ensures prefixEnd <= CHILD_OUTPUT_EDGE_BYTES < |stream| - CHILD_OUTPUT_EDGE_BYTES < suffixStart <= |stream|
    ensures Captured(StateOf(stream)) == stream[..prefixEnd] + Marker(|stream|) + stream[suffixStart..]
    ensures StartsLine(stream, prefixEnd)
    ensures forall k | prefixEnd < k <= CHILD_OUTPUT_EDGE_BYTES :: !StartsLine(stream, k)
    ensures suffixStart < |stream| ==> StartsLine(stream, suffixStart)
    ensures forall k | |stream| - CHILD_OUTPUT_EDGE_BYTES < k < suffixStart :: !StartsLine(stream, k)
  {
    hide Marker, LastNewline, FirstNewline, StartsLine, Captured, StateOf;
    var edge := CHILD_OUTPUT_EDGE_BYTES;
    var cut := |stream| - edge;
    var head, tail := stream[..edge], stream[cut..];
    var lineStart := FirstNewline(tail);
    prefixEnd := LastNewline(head) + 1;
    suffixStart := if lineStart >= 0 then cut + lineStart + 1 else |stream|;
    CapturedLong(stream);
    PrefixOfHead(stream, edge, prefixEnd);
    SuffixOfTail(stream, cut, if lineStart >= 0 then lineStart + 1 else edge);
    PrefixEndsAtLine(stream, edge);
    SuffixStartsAtLine(stream, cut);
  }

  /** Where the tail kept of a long stream starts. */
  function TailCut(stream: Buffer): nat
    requires |stream| > CHILD_OUTPUT_CAPTURE_BYTES
  {
    |stream| - CHILD_OUTPUT_EDGE_BYTES
  }

  /** What is emitted behind the marker is the longest suffix of the kept tail that consists of whole lines. */
  predicate IsLongestSuffix(stream: Buffer, suffixStart: nat)
    requires |stream| > CHILD_OUTPUT_CAPTURE_BYTES
  {
    && TailCut(stream) <= suffixStart <= |stream|
    && (suffixStart < |stream| ==> StartsLine(stream, suffixStart))
    && forall k | TailCut(stream) <= k < suffixStart :: !StartsLine(stream, k)
  }

  /** It is the longest exactly when the tail does not itself begin at a line start; otherwise its first line is lost. */
  lemma SuffixIsLongestIff(stream: Buffer) returns (prefixEnd: nat, suffixStart: nat)
    requires |stream| > CHILD_OUTPUT_CAPTURE_BYTES
    ensures prefixEnd <= suffixStart <= |stream|
    ensures Captured(StateOf(stream)) == stream[..prefixEnd] + Marker(|stream|) + stream[suffixStart..]
    ensures IsLongestSuffix(stream, suffixStart) <==> !StartsLine(stream, TailCut(stream))
    ensures StartsLine(stream, TailCut(stream)) ==>
              TailCut(stream) < suffixStart && forall k | TailCut(stream) < k < suffixStart :: !StartsLine(stream, k)
  {
    hide Marker, StartsLine, Captured, StateOf;
    prefixEnd, suffixStart := LongStreamIsCutAtLines(stream);
  }

  /** A stream of one-byte lines: the kept tail begins at a line start, and the first of its lines is lost. */
  lemma FirstLineIsLost(stream: Buffer)
    requires |stream| > CHILD_OUTPUT_CAPTURE_BYTES && forall i | 0 <= i < |stream| :: stream[i] == NEWLINE
    ensures StartsLine(stream, TailCut(stream))
    ensures Captured(StateOf(stream)) == stream[..CHILD_OUTPUT_EDGE_BYTES] + Marker(|stream|) + stream[TailCut(stream) + 1..]
  {
    hide Marker, Captured, StateOf;
    var prefixEnd, suffixStart := LongStreamIsCutAtLines(stream);
    assert StartsLine(stream, CHILD_OUTPUT_EDGE_BYTES) && StartsLine(stream, TailCut(stream) + 1);
  }

  /** The retained bytes are bounded whatever the stream. */
  lemma RetainedIsBounded(stream: Buffer)
    ensures var st := StateOf(stream);
            |st.complete| + |st.head| + |st.tail| <= CHILD_OUTPUT_CAPTURE_BYTES
  {
  }
}
