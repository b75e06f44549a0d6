/**
 Cursors over journals that are seen through sliding windows: the serial frame cursor of
 scripts/testbed/environment-control-guest-full.ts, and the runtime trace boundary of
 scripts/testbed/fast-route-stress-sale.ts. A journal only grows at its end, and a window
 shows its latest entries: the entries from some index on.
 */
module JournalCursor {
  import opened Decimal
  import opened Positions
  import opened Wrappers

  // ----- `filter`

  function Filter<T(!new)>(s: seq<T>, keep: T -> bool): seq<T> {
    if s == [] then []
    else if keep(s[0]) then [s[0]] + Filter(s[1..], keep)
    else Filter(s[1..], keep)
  }

  /** A test that fails on a front and holds of the rest keeps exactly the rest. */
  lemma {:induction false} FilterKeepsTheRest<T(!new)>(s: seq<T>, cut: nat, keep: T -> bool)
    requires cut <= |s|
    requires forall i :: 0 <= i < cut ==> !keep(s[i])
    requires forall i :: cut <= i < |s| ==> keep(s[i])
    ensures Filter(s, keep) == s[cut..]
  {
    if s != [] {
      FilterKeepsTheRest(s[1..], if cut == 0 then 0 else cut - 1, keep);
      if cut == 0 {
        assert s[1..][0..] == s[1..];
        assert s[0..] == [s[0]] + s[1..];
      } else {
        assert s[1..][cut - 1..] == s[cut..];
      }
    }
  }

  function Where<T(!new)>(s: seq<T>, keep: T -> bool): set<nat> {
    set k: nat | k < |s| && keep(s[k])
  }

  /** The elements that pass the test, each once, in order. */
  lemma {:induction false} FilterPicks<T(!new)>(s: seq<T>, keep: T -> bool)
    ensures IsPicked(s, Where(s, keep), Filter(s, keep))
  {
    hide IsPicked;
    if s == [] {
      NothingPicked<T>(Where(s, keep));
    } else {
      FilterPicks(s[1..], keep);
      PicksBehind(s, Where(s[1..], keep), Filter(s[1..], keep), keep(s[0]), Where(s, keep));
      assert [] + Filter(s[1..], keep) == Filter(s[1..], keep);
    }
  }

  // ----- serial frames

  /** A frame of the serial journal; an absent text field is empty. */
  datatype Frame = Frame(sequence: Option<nat>, boundaryId: string, capturedAt: string, direction: string, rawFrameHex: string,
                         parsedOpcode: string)

  /** Where the run of digits that ends `s` starts. */
  function DigitsStart(s: string): (start: nat)
    ensures start <= |s|
    ensures forall i :: start <= i < |s| ==> IsDigit(s[i])
    ensures start > 0 ==> !IsDigit(s[start - 1])
  {
    if s != [] && IsDigit(s[|s| - 1]) then DigitsStart(s[..|s| - 1]) else |s|
  }

  /** The number matched by a colon and digits at the end of the text. */
  function TrailingNumber(s: string): Option<nat> {
    var start := DigitsStart(s);
    if 0 < start < |s| && s[start - 1] == ':' then Some(Number(s[start..])) else None
  }

  /** `serialFrameSequence` */
  function Sequence(frame: Frame): Option<nat> {
    if frame.sequence.Some? then frame.sequence else TrailingNumber(frame.boundaryId)
  }

  lemma {:induction false} DigitsStartAfterColon(prefix: string, digits: string)
    requires forall i :: 0 <= i < |digits| ==> IsDigit(digits[i])
    ensures DigitsStart(prefix + ":" + digits) == |prefix| + 1
  {
    var s := prefix + ":" + digits;
    if digits != [] {
      DigitsStartAfterColon(prefix, digits[..|digits| - 1]);
      assert s[..|s| - 1] == prefix + ":" + digits[..|digits| - 1];
    }
  }

  /** The sequence number that a boundary id was built from is read back from it. */
  lemma BoundaryIdHoldsSequence(prefix: string, n: nat)
    ensures TrailingNumber(prefix + ":" + Digits(n)) == Some(n)
  {
    var s := prefix + ":" + Digits(n);
    DigitsStartAfterColon(prefix, Digits(n));
    DigitsDenote(n);
    assert s[|prefix| + 1..] == Digits(n);
  }

  /** `serialFrameIdentity` */
  function Identity(frame: Frame): string {
    frame.boundaryId + ":" + frame.capturedAt + ":" + frame.direction + ":" + frame.rawFrameHex + ":" + frame.parsedOpcode
  }

  /** A position in the journal: a cursor record, or the older form, a count (None is not an integer). */
  datatype Before =
    | Cursor(frameCount: Option<int>, lastSequence: Option<int>, lastCapturedAt: string, lastIdentity: string)
    | Count(frameCount: Option<int>)

  /** `serialEvidenceCursor` */
  function CursorOf(frames: seq<Frame>): Before {
    if frames == [] then Cursor(Some(0), None, "", "")
    else
      var last := frames[|frames| - 1];
      Cursor(Some(|frames|), if Sequence(last).Some? then Some(Sequence(last).value) else None, last.capturedAt, Identity(last))
  }

  predicate IsLater(sequence: Option<nat>, last: int) {
    sequence.Some? && sequence.value > last
  }

  /** `findIndex` by identity, or -1. */
  function FirstWithIdentity(frames: seq<Frame>, identity: string): (i: int)
    ensures -1 <= i < |frames|
    ensures i >= 0 ==> Identity(frames[i]) == identity
    ensures forall k :: 0 <= k < (if i < 0 then |frames| else i) ==> Identity(frames[k]) != identity
  {
    if frames == [] then -1
    else if Identity(frames[0]) == identity then 0
    else
      var i := FirstWithIdentity(frames[1..], identity);
      if i < 0 then -1 else i + 1
  }

  /** `Date.parse`: None when the text is not a date. */
  type DateParser = string -> Option<int>

  function FramesBySequence(frames: seq<Frame>, last: int): seq<Frame> {
    Filter(frames, (f: Frame) => IsLater(Sequence(f), last))
  }

  function FramesByTime(frames: seq<Frame>, lastCapturedAt: string, date: DateParser): seq<Frame> {
    if date(lastCapturedAt).None? then []
    else
      Filter(frames, (f: Frame) => date(f.capturedAt).Some? && date(f.capturedAt).value > date(lastCapturedAt).value)
  }

  function FramesByCount(frames: seq<Frame>, frameCount: Option<int>): seq<Frame> {
    if frameCount.None? || frameCount.value < 0 || frameCount.value > |frames| then frames
    else frames[frameCount.value..]
  }

  /** `serialFramesSince` */
  function FramesSince(frames: seq<Frame>, before: Before, date: DateParser): seq<Frame> {
    if before.Cursor? && before.lastSequence.Some? then
      var bySequence := FramesBySequence(frames, before.lastSequence.value);
      if bySequence != [] then bySequence
      else
        var i := FirstWithIdentity(frames, before.lastIdentity);
        if i >= 0 then frames[i + 1..]
        else
          var byTime := FramesByTime(frames, before.lastCapturedAt, date);
          if byTime != [] then byTime
          else if before.frameCount.Some? && |frames| <= before.frameCount.value then []
          else FramesByCount(frames, before.frameCount)
    else FramesByCount(frames, before.frameCount)
  }

  /** The frames numbered above `last`. */
  function LaterAt(frames: seq<Frame>, last: int): set<nat> {
    set k: nat | k < |frames| && Sequence(frames[k]).Some? && Sequence(frames[k]).value > last
  }

  /** The frames captured later than `instant`. */
  function NewerAt(frames: seq<Frame>, instant: int, date: DateParser): set<nat> {
    set k: nat | k < |frames| && date(frames[k].capturedAt).Some? && date(frames[k].capturedAt).value > instant
  }

  predicate IsFirstOf(frames: seq<Frame>, identity: string, i: nat) {
    i < |frames| && Identity(frames[i]) == identity && forall k | 0 <= k < i :: Identity(frames[k]) != identity
  }

  /**
   What `serialFramesSince` answers, in any window: the later-numbered frames; without one, those
   behind the first frame of the cursor's identity; without that, those captured later; and
   without one of these, those behind the cursor's count.
   */
  lemma FramesSinceFallsBack(frames: seq<Frame>, before: Before, date: DateParser)
    requires before.Cursor? && before.lastSequence.Some?
    ensures var answer, last := FramesSince(frames, before, date), before.lastSequence.value;
            var recognised := exists i :: IsFirstOf(frames, before.lastIdentity, i);
            var instant := date(before.lastCapturedAt);
            if LaterAt(frames, last) != {} then IsPicked(frames, LaterAt(frames, last), answer)
            else if recognised then exists i :: IsFirstOf(frames, before.lastIdentity, i) && answer == frames[i + 1..]
            else if instant.Some? && NewerAt(frames, instant.value, date) != {} then IsPicked(frames, NewerAt(frames, instant.value, date), answer)
            else answer == (if before.frameCount.Some? && before.frameCount.value >= 0 then
                              if before.frameCount.value < |frames| then frames[before.frameCount.value..] else []
                            else frames)
  {
    hide FramesBySequence, FramesByTime, IsPicked, LaterAt, NewerAt, IsFirstOf, FirstWithIdentity;
    var last := before.lastSequence.value;
    LaterArePicked(frames, last);
    var i := FirstOfIdentity(frames, before.lastIdentity);
    NewerArePicked(frames, before.lastCapturedAt, date);
  }

  lemma LaterArePicked(frames: seq<Frame>, last: int)
    ensures var answer := FramesBySequence(frames, last);
            IsPicked(frames, LaterAt(frames, last), answer) && (answer == [] <==> LaterAt(frames, last) == {})
  {
    hide Sequence, IsPicked;
    var isLater := (f: Frame) => IsLater(Sequence(f), last);
    FilterPicks(frames, isLater);
    assert Where(frames, isLater) == LaterAt(frames, last);
    PickedIffWanted(frames, LaterAt(frames, last), Filter(frames, isLater));
  }

  lemma NewerArePicked(frames: seq<Frame>, lastCapturedAt: string, date: DateParser)
    ensures var answer, since := FramesByTime(frames, lastCapturedAt, date), date(lastCapturedAt);
            if since.None? then answer == []
            else IsPicked(frames, NewerAt(frames, since.value, date), answer) && (answer == [] <==> NewerAt(frames, since.value, date) == {})
  {
    hide IsPicked;
    if date(lastCapturedAt).None? {
      return;
    }
    var instant := date(lastCapturedAt).value;
    var isNewer := (f: Frame) => date(f.capturedAt).Some? && date(f.capturedAt).value > instant;
    FilterPicks(frames, isNewer);
    assert Where(frames, isNewer) == NewerAt(frames, instant, date);
    PickedIffWanted(frames, NewerAt(frames, instant, date), Filter(frames, isNewer));
  }

  lemma FirstOfIdentity(frames: seq<Frame>, identity: string) returns (i: int)
    ensures i == FirstWithIdentity(frames, identity) && -1 <= i < |frames|
    ensures if i >= 0 then IsFirstOf(frames, identity, i) else forall k :: !IsFirstOf(frames, identity, k)
  {
    hide Identity;
    i := FirstWithIdentity(frames, identity);
  }

  lemma PickedIffWanted<T>(s: seq<T>, wanted: set<nat>, result: seq<T>)
    ensures IsPicked(s, wanted, result) ==> (result == [] <==> wanted == {})
  {
    if IsPicked(s, wanted, result) {
      var p :| Lists(p, wanted) && ArePicked(s, p, result);
      if p != [] {
        assert p[0] in p;
      } else {
        assert forall k | k in wanted :: k in p;
      }
    }
  }

  /** A position without a sequence number is a count: the frames behind it, or all of them if it is no count of theirs. */
  lemma FramesSinceByCount(frames: seq<Frame>, before: Before, date: DateParser)
    requires before.Count? || before.lastSequence.None?
    ensures forall n: nat | before.frameCount == Some(n) && n <= |frames| :: frames == frames[..n] + FramesSince(frames, before, date)
    ensures before.frameCount.None? || !(0 <= before.frameCount.value <= |frames|) ==> FramesSince(frames, before, date) == frames
  {
  }

  // ----- windows of one journal

  /** Every frame has a sequence number, larger than the one before. */
  predicate Increasing(journal: seq<Frame>) {
    && (forall i :: 0 <= i < |journal| ==> Sequence(journal[i]).Some?)
    && forall i, j :: 0 <= i < j < |journal| ==> Sequence(journal[i]).value < Sequence(journal[j]).value
  }

  predicate DistinctIdentities(journal: seq<Frame>) {
    forall i, j :: 0 <= i < j < |journal| ==> Identity(journal[i]) != Identity(journal[j])
  }

  /** A look at the journal: `end` frames have been written, of which those before `start` are gone. */
  datatype Look = Look(start: nat, end: nat)

  predicate IsLook(journal: seq<Frame>, look: Look) {
    look.start <= look.end <= |journal|
  }

  function Shown(journal: seq<Frame>, look: Look): seq<Frame>
    requires IsLook(journal, look)
  {
    journal[look.start..look.end]
  }

  /** Between two looks frames are added at the end and dropped at the front. */
  predicate Follows(journal: seq<Frame>, first: Look, later: Look) {
    IsLook(journal, first) && IsLook(journal, later) && first.start <= later.start && first.end <= later.end
  }

  /** The frames appended since the first look that the second still shows. */
  function Appended(journal: seq<Frame>, first: Look, later: Look): seq<Frame>
    requires Follows(journal, first, later)
  {
    journal[(if first.end < later.start then later.start else first.end)..later.end]
  }

  lemma LaterFrames(journal: seq<Frame>, first: Look, later: Look)
    requires Increasing(journal) && Follows(journal, first, later) && first.start < first.end
    ensures var last := Sequence(journal[first.end - 1]).value;
            Filter(Shown(journal, later), (f: Frame) => IsLater(Sequence(f), last)) == Appended(journal, first, later)
  {
    hide Sequence;
    var last := Sequence(journal[first.end - 1]).value;
    var shown := Shown(journal, later);
    var cut := if first.end < later.start then 0 else first.end - later.start;
    var keep := (f: Frame) => IsLater(Sequence(f), last);
    forall i | 0 <= i < cut ensures !keep(shown[i]) {
      assert shown[i] == journal[later.start + i];
    }
    forall i | cut <= i < |shown| ensures keep(shown[i]) {
      assert shown[i] == journal[later.start + i];
    }
    FilterKeepsTheRest(shown, cut, keep);
    assert shown[cut..] == Appended(journal, first, later);
  }

  /** No retained frame before the last one shown looks like it. */
  predicate LastIsRecognised(journal: seq<Frame>, first: Look, later: Look)
    requires Follows(journal, first, later) && first.start < first.end
  {
    forall i :: later.start <= i < first.end - 1 ==> Identity(journal[i]) != Identity(journal[first.end - 1])
  }

  /**
   A cursor taken on a nonempty window gives back the appended frames exactly when something
   appended is still shown, or nothing is shown, or the frame at the cursor is recognised.
   */
  lemma CursorIsExactIff(journal: seq<Frame>, first: Look, later: Look, date: DateParser)
    requires Increasing(journal) && Follows(journal, first, later) && first.start < first.end
    ensures FramesSince(Shown(journal, later), CursorOf(Shown(journal, first)), date) == Appended(journal, first, later)
       <==> later.start == later.end || first.end < later.end || LastIsRecognised(journal, first, later)
  {
    hide Sequence, Identity, Increasing;
    var shown, cursor := Shown(journal, later), CursorOf(Shown(journal, first));
    CursorAtLast(journal, first);
    LaterFrames(journal, first, later);
    if later.start < later.end && first.end == later.end {
      var last := first.end - 1;
      assert shown[|shown| - 1] == journal[last];
      var i := FirstWithIdentity(shown, Identity(journal[last]));
      assert FramesSince(shown, cursor, date) == shown[i + 1..];
      assert forall k :: 0 <= k < |shown| ==> shown[k] == journal[later.start + k];
      assert forall k :: later.start <= k < later.end ==> journal[k] == shown[k - later.start];
    } else if later.start == later.end {
      assert shown == [];
    }
  }

  lemma CursorAtLast(journal: seq<Frame>, look: Look)
    requires Increasing(journal) && IsLook(journal, look) && look.start < look.end
    ensures var last := journal[look.end - 1];
            Sequence(last).Some? &&
            CursorOf(Shown(journal, look))
            == Cursor(Some(look.end - look.start), Some(Sequence(last).value), last.capturedAt, Identity(last))
  {
    hide Sequence, Identity;
    assert Shown(journal, look)[|Shown(journal, look)| - 1] == journal[look.end - 1];
  }

  /** With distinct identities a cursor is exact, also when taken on an empty window. */
  lemma CursorIsExact(journal: seq<Frame>, first: Look, later: Look, date: DateParser)
    requires Increasing(journal) && DistinctIdentities(journal) && Follows(journal, first, later)
    ensures FramesSince(Shown(journal, later), CursorOf(Shown(journal, first)), date) == Appended(journal, first, later)
  {
    hide Sequence, Identity, Increasing;
    if first.start < first.end {
      CursorIsExactIff(journal, first, later, date);
    } else {
      assert CursorOf(Shown(journal, first)) == Cursor(Some(0), None, "", "");
    }
  }

  /** Frames as the host control plane writes them, with the sequence in the boundary id. */
  predicate NumberedBy(prefix: string, journal: seq<Frame>) {
    forall i :: 0 <= i < |journal| ==> Sequence(journal[i]).Some? && IsNumbered(prefix, journal[i], Sequence(journal[i]).value)
  }

  predicate IsNumbered(prefix: string, frame: Frame, n: nat) {
    frame.boundaryId == prefix + ":" + Digits(n)
  }

  lemma DigitsEndAtColon(a: string, b: string, restA: string, restB: string)
    requires forall i :: 0 <= i < |a| ==> IsDigit(a[i])
    requires forall i :: 0 <= i < |b| ==> IsDigit(b[i])
    requires a + ":" + restA == b + ":" + restB
    ensures a == b
  {
    var s := a + ":" + restA;
    assert s[..|a|] == a && s[|a|] == ':' && s[..|b|] == b && s[|b|] == ':';
  }

  function AfterBoundaryId(frame: Frame): string {
    frame.capturedAt + ":" + frame.direction + ":" + frame.rawFrameHex + ":" + frame.parsedOpcode
  }

  lemma NumberedIdentity(prefix: string, frame: Frame, n: nat)
    requires IsNumbered(prefix, frame, n)
    ensures Identity(frame) == (prefix + ":") + (Digits(n) + ":" + AfterBoundaryId(frame))
  {
    hide Digits;
    assert Identity(frame) == frame.boundaryId + ":" + AfterBoundaryId(frame);
  }

  lemma NumbersTellApart(prefix: string, a: Frame, b: Frame, n: nat, m: nat)
    requires IsNumbered(prefix, a, n) && IsNumbered(prefix, b, m) && Identity(a) == Identity(b)
    ensures n == m
  {
    hide Digits, Identity, IsNumbered;
    NumberedIdentity(prefix, a, n);
    NumberedIdentity(prefix, b, m);
    SameFront(prefix + ":", Digits(n) + ":" + AfterBoundaryId(a), Digits(m) + ":" + AfterBoundaryId(b));
    DigitsEndAtColon(Digits(n), Digits(m), AfterBoundaryId(a), AfterBoundaryId(b));
    DigitsDenote(n);
    DigitsDenote(m);
  }

  lemma SameFront(front: string, a: string, b: string)
    requires front + a == front + b
    ensures a == b
  {
    assert (front + a)[|front|..] == a && (front + b)[|front|..] == b;
  }

  /** Frames with their sequence in the boundary id always have distinct identities. */
  lemma NumberedFramesAreDistinct(prefix: string, journal: seq<Frame>)
    requires NumberedBy(prefix, journal) && Increasing(journal)
    ensures DistinctIdentities(journal)
  {
    hide Identity, Sequence, IsNumbered;
    forall i, j | 0 <= i < j < |journal| ensures Identity(journal[i]) != Identity(journal[j]) {
      if Identity(journal[i]) == Identity(journal[j]) {
        NumbersTellApart(prefix, journal[i], journal[j], Sequence(journal[i]).value, Sequence(journal[j]).value);
      }
    }
  }

  /** Two frames that differ only in their sequence: a frame already seen is returned again. */
  lemma SharedIdentityRepeatsAFrame(date: DateParser)
    ensures var journal := [Frame(Some(1), "", "", "", "", ""), Frame(Some(2), "", "", "", "", "")];
            var look := Look(0, 2);
            && Increasing(journal) && Follows(journal, look, look) && Appended(journal, look, look) == []
            && FramesSince(Shown(journal, look), CursorOf(Shown(journal, look)), date) == [journal[1]]
  {
    var journal := [Frame(Some(1), "", "", "", "", ""), Frame(Some(2), "", "", "", "", "")];
    var look := Look(0, 2);
    assert Shown(journal, look) == journal;
    LaterFrames(journal, look, look);
    CursorAtLast(journal, look);
    assert FirstWithIdentity(journal, Identity(journal[1])) == 0;
  }

  // ----- a whole run of polls

  /** Each look follows the one before. */
  predicate IsRun(journal: seq<Frame>, looks: seq<Look>) {
    && (forall i :: 0 <= i < |looks| ==> IsLook(journal, looks[i]))
    && forall i :: 0 < i < |looks| ==> Follows(journal, looks[i - 1], looks[i])
  }

  /** What a poller collects that takes its cursor anew at every look. */
  function Collected(journal: seq<Frame>, looks: seq<Look>, date: DateParser): seq<Frame>
    requires IsRun(journal, looks)
  {
    if |looks| <= 1 then []
    else
      var n := |looks| - 1;
      Collected(journal, looks[..n], date) + FramesSince(Shown(journal, looks[n]), CursorOf(Shown(journal, looks[n - 1])), date)
  }

  /** How many frames were dropped before any look showed them. */
  function Missed(looks: seq<Look>): nat {
    if |looks| <= 1 then 0
    else
      var n := |looks| - 1;
      Missed(looks[..n]) + if looks[n - 1].end < looks[n].start then looks[n].start - looks[n - 1].end else 0
  }

  /** Every appended frame is collected once, or counted as missed; with none missed they come in order. */
  lemma {:induction false} PollingCollectsEachFrameOnce(journal: seq<Frame>, looks: seq<Look>, date: DateParser)
    requires Increasing(journal) && DistinctIdentities(journal) && IsRun(journal, looks) && looks != []
    ensures var from, to := looks[0].end, looks[|looks| - 1].end;
            && from <= to
            && |Collected(journal, looks, date)| + Missed(looks) == to - from
            && (Missed(looks) == 0 <==> Collected(journal, looks, date) == journal[from..to])
  {
    hide Sequence, Identity, Increasing, DistinctIdentities, FramesSince, CursorOf;
    if |looks| > 1 {
      var n := |looks| - 1;
      var before := looks[..n];
      PollingCollectsEachFrameOnce(journal, before, date);
      CursorIsExact(journal, looks[n - 1], looks[n], date);
      var from, mid, to := looks[0].end, looks[n - 1].end, looks[n].end;
      assert before[0] == looks[0] && before[n - 1] == looks[n - 1];
      assert Collected(journal, looks, date) == Collected(journal, before, date) + Appended(journal, looks[n - 1], looks[n]);
      assert journal[from..mid] + journal[mid..to] == journal[from..to];
    }
  }

  // ----- runtime traces

  /** A trace entry: its integer id and the instant `at` parses to, where it has them. */
  datatype Entry = Entry(id: Option<int>, at: Option<int>)

  /** The generation is None when it is missing or blank. */
  datatype Snapshot = Snapshot(generation: Option<string>, entries: seq<Entry>)

  datatype Boundary = Boundary(lastEntryId: int, capturedAt: Option<int>, generation: Option<string>)

  datatype Result<+T> = Ok(value: T) | Err

  function LastEntryId(entries: seq<Entry>): int {
    if entries == [] || entries[|entries| - 1].id.None? then 0 else entries[|entries| - 1].id.value
  }

  predicate IdGrows(entries: seq<Entry>, i: nat)
    requires i < |entries|
  {
    entries[i].id.Some? && entries[i].id.value > if i > 0 && entries[i - 1].id.Some? then entries[i - 1].id.value else 0
  }

  /** `traceBoundary`; `now` is the clock. */
  function TraceBoundary(snapshot: Snapshot, now: int): Result<Boundary> {
    var last := LastEntryId(snapshot.entries);
    if snapshot.generation.None? then Err
    else if last < 0 || !(forall i :: 0 <= i < |snapshot.entries| ==> IdGrows(snapshot.entries, i)) then Err
    else Ok(Boundary(last, Some(now), snapshot.generation))
  }

  /** Whether an entry is returned; an entry whose instant is needed and missing is an error. */
  function IsAfter(entry: Entry, boundary: Boundary, sameRuntime: bool): Result<bool>
    requires boundary.capturedAt.Some?
  {
    if entry.id.None? || entry.id.value < 1 then Ok(false)
    else if sameRuntime then Ok(entry.id.value > boundary.lastEntryId)
    else if entry.at.None? then Err
    else Ok(entry.at.value > boundary.capturedAt.value)
  }

  function SelectAfter(entries: seq<Entry>, boundary: Boundary, sameRuntime: bool): Result<seq<Entry>>
    requires boundary.capturedAt.Some?
  {
    if entries == [] then Ok([])
    else
      match IsAfter(entries[0], boundary, sameRuntime)
      case Err => Err
      case Ok(keep) =>
        var rest := SelectAfter(entries[1..], boundary, sameRuntime);
        if rest.Err? then Err else Ok((if keep then [entries[0]] else []) + rest.value)
  }

  /** `traceEntriesAfterBoundary` */
  function EntriesAfter(snapshot: Snapshot, boundary: Boundary): Result<seq<Entry>> {
    if boundary.lastEntryId < 0 || boundary.capturedAt.None? || boundary.generation.None? then Err
    else if snapshot.generation.None? then Err
    else SelectAfter(snapshot.entries, boundary, boundary.generation == snapshot.generation)
  }

  /** Ids are positive and strictly increasing. */
  predicate IncreasingIds(log: seq<Entry>) {
    && (forall i :: 0 <= i < |log| ==> log[i].id.Some? && log[i].id.value > 0)
    && forall i, j :: 0 <= i < j < |log| ==> log[i].id.value < log[j].id.value
  }

  /** A boundary can be taken exactly when the ids are positive and strictly increasing. */
  lemma BoundaryIffIncreasing(snapshot: Snapshot, now: int)
    requires snapshot.generation.Some?
    ensures TraceBoundary(snapshot, now).Ok? <==> IncreasingIds(snapshot.entries)
  {
    var entries := snapshot.entries;
    if forall i :: 0 <= i < |entries| ==> IdGrows(entries, i) {
      GrowingIds(entries);
    }
    if IncreasingIds(entries) {
      forall i | 0 <= i < |entries| ensures IdGrows(entries, i) {
        assert i > 0 ==> entries[i - 1].id.value < entries[i].id.value;
      }
    }
  }

  lemma {:induction false} GrowingIds(entries: seq<Entry>)
    requires forall i :: 0 <= i < |entries| ==> IdGrows(entries, i)
    ensures IncreasingIds(entries)
  {
    if entries != [] {
      var n := |entries| - 1;
      var before := entries[..n];
      forall i | 0 <= i < n ensures IdGrows(before, i) {
        assert IdGrows(entries, i);
      }
      GrowingIds(before);
      assert IdGrows(entries, n);
      forall i | 0 <= i < n ensures before[i] == entries[i] && entries[i].id.value < entries[n].id.value {
        assert before[i].id.value <= before[n - 1].id.value;
      }
    }
  }

  lemma {:induction false} SelectKeepsTheRest(entries: seq<Entry>, cut: nat, boundary: Boundary)
    requires cut <= |entries| && boundary.capturedAt.Some?
    requires forall i :: 0 <= i < cut ==> IsAfter(entries[i], boundary, true) == Ok(false)
    requires forall i :: cut <= i < |entries| ==> IsAfter(entries[i], boundary, true) == Ok(true)
    ensures SelectAfter(entries, boundary, true) == Ok(entries[cut..])
  {
    hide IsAfter;
    if entries != [] {
      SelectKeepsTheRest(entries[1..], if cut == 0 then 0 else cut - 1, boundary);
      if cut == 0 {
        assert entries[1..][0..] == entries[1..];
        assert entries[0..] == [entries[0]] + entries[1..];
      } else {
        assert IsAfter(entries[0], boundary, true) == Ok(false);
        assert entries[1..][cut - 1..] == entries[cut..];
        assert [] + entries[cut..] == entries[cut..];
      }
    }
  }

  /**
   Within one generation, a boundary taken when the log had `end` entries, shown from `start`
   on, gives back the entries appended since, as far as a later snapshot still shows them.
   */
  lemma BoundaryIsExact(log: seq<Entry>, generation: string, now: int, start: nat, end: nat, start': nat, end': nat)
    requires start <= end <= end' <= |log| && start <= start' <= end' && IncreasingIds(log)
    ensures var taken := TraceBoundary(Snapshot(Some(generation), log[start..end]), now);
            && taken.Ok?
            && EntriesAfter(Snapshot(Some(generation), log[start'..end']), taken.value)
               == Ok(log[(if end < start' then start' else end)..end'])
  {
    hide IncreasingIds;
    var shown := log[start'..end'];
    WindowIsIncreasing(log, start, end);
    BoundaryIffIncreasing(Snapshot(Some(generation), log[start..end]), now);
    var boundary := TraceBoundary(Snapshot(Some(generation), log[start..end]), now).value;
    var cut := if end < start' then 0 else end - start';
    forall i | 0 <= i < |shown| ensures IsAfter(shown[i], boundary, true) == Ok(i >= cut) {
      EntryAgainstBoundary(log, start, end, start' + i);
    }
    SelectKeepsTheRest(shown, cut, boundary);
    assert shown[cut..] == log[(if end < start' then start' else end)..end'];
  }

  lemma WindowIsIncreasing(log: seq<Entry>, start: nat, end: nat)
    requires start <= end <= |log| && IncreasingIds(log)
    ensures IncreasingIds(log[start..end])
  {
  }

  lemma EntryAgainstBoundary(log: seq<Entry>, start: nat, end: nat, i: nat)
    requires start <= end <= |log| && start <= i < |log| && IncreasingIds(log)
    ensures log[i].id.Some? && log[i].id.value >= 1
    ensures log[i].id.value > LastEntryId(log[start..end]) <==> i >= end
  {
    if start < end {
      assert log[start..end][end - start - 1] == log[end - 1];
    }
  }

  predicate IsNumberedEntry(entry: Entry) {
    entry.id.Some? && entry.id.value >= 1
  }

  predicate AllDated(entries: seq<Entry>) {
    forall i :: 0 <= i < |entries| && IsNumberedEntry(entries[i]) ==> entries[i].at.Some?
  }

  /** After a restart, the numbered entries later than the boundary; one without an instant is an error. */
  lemma {:induction false} RestartSelectsByTime(entries: seq<Entry>, boundary: Boundary, isNewer: Entry -> bool)
    requires boundary.capturedAt.Some?
    requires forall e :: isNewer(e) == (IsNumberedEntry(e) && e.at.Some? && e.at.value > boundary.capturedAt.value)
    ensures SelectAfter(entries, boundary, false) == if AllDated(entries) then Ok(Filter(entries, isNewer)) else Err
  {
    if entries != [] {
      RestartSelectsByTime(entries[1..], boundary, isNewer);
      assert AllDated(entries) <==> (IsNumberedEntry(entries[0]) ==> entries[0].at.Some?) && AllDated(entries[1..]) by {
        assert entries == [entries[0]] + entries[1..];
      }
      assert [] + Filter(entries[1..], isNewer) == Filter(entries[1..], isNewer);
    }
  }

  /** The numbered entries of an instant later than the boundary's. */
  function LaterEntriesAt(entries: seq<Entry>, instant: int): set<nat> {
    set k: nat | k < |entries| && entries[k].id.Some? && entries[k].id.value >= 1 && entries[k].at.Some? && entries[k].at.value > instant
  }

  /** The numbered entries behind an id. */
  function EntriesBehind(entries: seq<Entry>, last: int): set<nat> {
    set k: nat | k < |entries| && entries[k].id.Some? && entries[k].id.value >= 1 && entries[k].id.value > last
  }

  lemma {:induction false} SelectPicks(entries: seq<Entry>, boundary: Boundary, sameRuntime: bool)
    requires boundary.capturedAt.Some?
    ensures SelectAfter(entries, boundary, sameRuntime).Ok? <==> sameRuntime || AllDated(entries)
    ensures SelectAfter(entries, boundary, sameRuntime).Ok? ==>
              IsPicked(entries,
                       if sameRuntime then EntriesBehind(entries, boundary.lastEntryId) else LaterEntriesAt(entries, boundary.capturedAt.value),
                       SelectAfter(entries, boundary, sameRuntime).value)
  {
    hide IsPicked;
    var wanted := if sameRuntime then EntriesBehind(entries, boundary.lastEntryId) else LaterEntriesAt(entries, boundary.capturedAt.value);
    if entries == [] {
      NothingPicked<Entry>(wanted);
    } else {
      SelectPicks(entries[1..], boundary, sameRuntime);
      DatedBehind(entries);
      var rest := if sameRuntime then EntriesBehind(entries[1..], boundary.lastEntryId) else LaterEntriesAt(entries[1..], boundary.capturedAt.value);
      assert forall k: nat :: k > 0 ==> (k in wanted <==> k - 1 in rest);
      if SelectAfter(entries, boundary, sameRuntime).Ok? {
        PicksBehind(entries, rest, SelectAfter(entries[1..], boundary, sameRuntime).value, 0 in wanted, wanted);
      }
    }
  }

  lemma DatedBehind(entries: seq<Entry>)
    requires entries != []
    ensures AllDated(entries) <==> (IsNumberedEntry(entries[0]) ==> entries[0].at.Some?) && AllDated(entries[1..])
  {
    assert entries == [entries[0]] + entries[1..];
  }

  /**
   A boundary taken in one snapshot, put to any later one: within the generation the numbered
   entries behind its last id, in another generation those later than its own instant, unless
   a numbered entry has none. A snapshot without a generation is refused.
   */
  lemma BoundarySelects(first: Snapshot, now: int, later: Snapshot)
    requires TraceBoundary(first, now).Ok?
    ensures var answer := EntriesAfter(later, TraceBoundary(first, now).value);
            && (answer.Ok? <==> later.generation.Some? && (later.generation == first.generation || AllDated(later.entries)))
            && (answer.Ok? ==>
                  if later.generation == first.generation then IsPicked(later.entries, EntriesBehind(later.entries, LastEntryId(first.entries)), answer.value)
                  else IsPicked(later.entries, LaterEntriesAt(later.entries, now), answer.value))
  {
    hide IsPicked, AllDated;
    SelectPicks(later.entries, TraceBoundary(first, now).value, later.generation == first.generation);
  }
}
