/**
 `runSerialTrackLifecycle` of scripts/testbed/full-workflow-orchestrator.ts. The callbacks
 are inputs: for every track, what each of them would do if it were called. Any of them may
 throw. The calls made are recorded in a trace.
 */
module TrackLifecycle {
  import opened Wrappers

  /** What one callback does: return a value, or throw. */
  datatype Outcome<+T> = Returned(value: T) | Threw

  datatype Status = Passed | Failed | Blocked | Unknown

  /** A report and a message are opaque. */
  type Report = string

  datatype Track = Track(key: string, hasRunner: bool)

  datatype Child = Child(status: Status, report: Option<Report>)

  /** `ok` is whether the record's `ok` field is exactly `true`. */
  datatype Facts = Facts(ok: bool)

  /** What the callbacks do for one track, and the report file found once the child is done. */
  datatype Script = Script(
    clearReport: Outcome<()>,
    clearArtifacts: Outcome<()>,
    beforeTrack: Outcome<()>,
    runTrack: Outcome<Child>,
    reportOnDisk: Option<Report>,
    captureTerminal: Outcome<Facts>,
    recover: Outcome<Facts>)

  datatype Trust = Trust(report: bool, artifactRoot: bool)

  /** `validateBusinessCheckReport`, with the trust it is given in the artifact root. */
  type Validator = (Track, Option<Report>, bool) -> bool

  datatype Stage = ChildStage | TerminalState | HandoffRecovery

  datatype Entry = Entry(key: string, status: Status, failureStage: Option<Stage>, trust: Trust,
                         report: Option<Report>, validated: bool, recovered: bool)

  datatype Call = Started | ClearReport | ClearArtifacts | BeforeTrack | RunTrack | CaptureTerminal | Recover | Finished(entry: Entry)

  datatype Event = Event(index: nat, call: Call)

  // ----- what a track run should come to

  predicate Cleared(script: Script) {
    script.clearReport.Returned? && script.clearArtifacts.Returned?
  }

  /** The runner is started only after both clean-ups and the preflight have returned. */
  predicate Launched(track: Track, script: Script) {
    track.hasRunner && Cleared(script) && script.beforeTrack.Returned?
  }

  function TrustOf(track: Track, script: Script): Trust {
    Trust(track.hasRunner && script.clearReport.Returned?, track.hasRunner && script.clearArtifacts.Returned?)
  }

  /** A report counts only if the stale one was removed first. */
  function ReportOf(track: Track, script: Script): Option<Report> {
    if !TrustOf(track, script).report then None
    else if Launched(track, script) && script.runTrack.Returned? && script.runTrack.value.report.Some?
    then script.runTrack.value.report
    else script.reportOnDisk
  }

  predicate ChildSucceeds(track: Track, script: Script) {
    Launched(track, script) && script.runTrack.Returned? && script.runTrack.value.status == Passed
  }

  predicate Validates(track: Track, script: Script, validate: Validator) {
    validate(track, ReportOf(track, script), TrustOf(track, script).artifactRoot)
  }

  predicate TerminalSucceeds(script: Script) {
    script.captureTerminal.Returned? && script.captureTerminal.value.ok
  }

  predicate RecoverySucceeds(script: Script) {
    script.recover.Returned? && script.recover.value.ok
  }

  /** A track without a runner is blocked; so is one whose runner says so. */
  predicate IsBlocked(track: Track, script: Script) {
    !track.hasRunner || (Launched(track, script) && script.runTrack.Returned? && script.runTrack.value.status == Blocked)
  }

  /** The calls made for one track, in order. */
  function Calls(track: Track, script: Script, entry: Entry): seq<Call> {
    Opening(track, script) + [CaptureTerminal, Recover, Finished(entry)]
  }

  /** The calls up to the child's end. */
  function Opening(track: Track, script: Script): seq<Call> {
    [Started]
    + (if track.hasRunner then [ClearReport, ClearArtifacts] else [])
    + (if track.hasRunner && Cleared(script) then [BeforeTrack] else [])
    + (if Launched(track, script) then [RunTrack] else [])
  }

  /** Whenever `b` is called, `a` was called ahead of it. */
  predicate Precedes(calls: seq<Call>, a: Call, b: Call) {
    forall j | 0 <= j < |calls| && calls[j] == b :: a in calls[..j]
  }

  /** The calls of a track's preflight and child. */
  predicate IsPreparation(call: Call) {
    call in {ClearReport, ClearArtifacts, BeforeTrack, RunTrack}
  }

  /** Which calls are made for a track, each of them once, and in what order. */
  predicate InOrder(track: Track, script: Script, entry: Entry, calls: seq<Call>) {
    && calls != [] && calls[0] == Started && calls[|calls| - 1] == Finished(entry)
    && (forall i, j | 0 <= i < j < |calls| :: calls[i] != calls[j])
    && (forall call | call in calls :: call.Finished? ==> call == Finished(entry))
    // the preparation: both clean-ups, then the preflight, then the child
    && (ClearReport in calls <==> track.hasRunner)
    && (ClearArtifacts in calls <==> track.hasRunner)
    && (BeforeTrack in calls <==> track.hasRunner && script.clearReport.Returned? && script.clearArtifacts.Returned?)
    && (RunTrack in calls <==>
          track.hasRunner && script.clearReport.Returned? && script.clearArtifacts.Returned? && script.beforeTrack.Returned?)
    && Precedes(calls, ClearReport, ClearArtifacts)
    && Precedes(calls, ClearReport, BeforeTrack) && Precedes(calls, ClearArtifacts, BeforeTrack)
    && Precedes(calls, ClearReport, RunTrack) && Precedes(calls, ClearArtifacts, RunTrack)
    && Precedes(calls, BeforeTrack, RunTrack)
    // behind it: the terminal capture, then the recovery
    && CaptureTerminal in calls && Recover in calls
    && (forall call | call in calls && IsPreparation(call) :: Precedes(calls, call, CaptureTerminal))
    && Precedes(calls, CaptureTerminal, Recover)
  }

  function Rank(call: Call): nat {
    match call
    case Started => 0
    case ClearReport => 1
    case ClearArtifacts => 2
    case BeforeTrack => 3
    case RunTrack => 4
    case CaptureTerminal => 5
    case Recover => 6
    case Finished(_) => 7
  }

  predicate Ranked(calls: seq<Call>) {
    forall i, j | 0 <= i < j < |calls| :: Rank(calls[i]) < Rank(calls[j])
  }

  lemma RankedPrecedes(calls: seq<Call>, a: Call, b: Call)
    requires Ranked(calls) && Rank(a) < Rank(b) && (b in calls ==> a in calls)
    ensures Precedes(calls, a, b)
  {
    forall j | 0 <= j < |calls| && calls[j] == b
      ensures a in calls[..j]
    {
      var i :| 0 <= i < |calls| && calls[i] == a;
      assert calls[..j][i] == a;
    }
  }

  lemma CallsAreRanked(track: Track, script: Script, entry: Entry)
    ensures Ranked(Calls(track, script, entry))
  {
    hide Cleared, Launched;
  }

  lemma CallsMade(track: Track, script: Script, entry: Entry)
    ensures var calls := Calls(track, script, entry);
            && Ranked(calls)
            && calls[0] == Started && calls[|calls| - 1] == Finished(entry)
            && CaptureTerminal in calls && Recover in calls
            && (forall call | call in calls :: call.Finished? ==> call == Finished(entry))
            && (ClearReport in calls <==> track.hasRunner) && (ClearArtifacts in calls <==> track.hasRunner)
            && (BeforeTrack in calls <==> track.hasRunner && Cleared(script))
            && (RunTrack in calls <==> Launched(track, script))
  {
    hide Rank;
    var calls := Calls(track, script, entry);
    assert Ranked(calls) by {
      CallsAreRanked(track, script, entry);
    }
    var n := |Opening(track, script)|;
    assert calls[n] == CaptureTerminal && calls[n + 1] == Recover && calls[n + 2] == Finished(entry);
  }

  lemma CallsAreInOrder(track: Track, script: Script, entry: Entry)
    ensures InOrder(track, script, entry, Calls(track, script, entry))
  {
    hide Calls, Precedes, Ranked;
    CallsMade(track, script, entry);
    var calls := Calls(track, script, entry);
    RankedPrecedes(calls, ClearReport, ClearArtifacts);
    RankedPrecedes(calls, ClearReport, BeforeTrack);
    RankedPrecedes(calls, ClearArtifacts, BeforeTrack);
    RankedPrecedes(calls, ClearReport, RunTrack);
    RankedPrecedes(calls, ClearArtifacts, RunTrack);
    RankedPrecedes(calls, BeforeTrack, RunTrack);
    RankedPrecedes(calls, CaptureTerminal, Recover);
    forall call | call in calls && IsPreparation(call)
      ensures Precedes(calls, call, CaptureTerminal)
    {
      RankedPrecedes(calls, call, CaptureTerminal);
    }
    RankedAreDistinct(calls);
  }

  lemma RankedAreDistinct(calls: seq<Call>)
    requires Ranked(calls)
    ensures forall i, j | 0 <= i < j < |calls| :: calls[i] != calls[j]
  {
  }

  /** An entry that tells the truth about a track run. */
  predicate Faithful(track: Track, script: Script, validate: Validator, entry: Entry) {
    && entry.key == track.key
    && (entry.status == Passed <==>
          ChildSucceeds(track, script) && Validates(track, script, validate)
          && TerminalSucceeds(script) && RecoverySucceeds(script))
    && (entry.status == Blocked <==> IsBlocked(track, script))
    && entry.status != Unknown
    && entry.trust == TrustOf(track, script)
    && entry.report == ReportOf(track, script)
    && entry.validated == Validates(track, script, validate)
    && entry.recovered == RecoverySucceeds(script)
    && entry.failureStage ==
         (if !ChildSucceeds(track, script) || !Validates(track, script, validate) then Some(ChildStage)
          else if !TerminalSucceeds(script) then Some(TerminalState)
          else if !RecoverySucceeds(script) then Some(HandoffRecovery)
          else None)
  }

  // ----- the loop

  /** The body of the loop. */
  method RunOneTrack(track: Track, script: Script, validate: Validator)
    returns (entry: Entry, trace: seq<Call>)
    ensures Faithful(track, script, validate, entry)
    ensures InOrder(track, script, entry, trace)
    ensures trace == Calls(track, script, entry)
  {
    hide InOrder;
    trace := [Started];
    var child: Child;
    var trust := Trust(false, false);
    if !track.hasRunner {
      child := Child(Blocked, None);
    } else {
      var cleanupErrors := 0;
      trace := trace + [ClearReport];
      if script.clearReport.Returned? {
        trust := trust.(report := true);
      } else {
        cleanupErrors := cleanupErrors + 1;
      }
      trace := trace + [ClearArtifacts];
      if script.clearArtifacts.Returned? {
        trust := trust.(artifactRoot := true);
      } else {
        cleanupErrors := cleanupErrors + 1;
      }
      if cleanupErrors > 0 {
        child := Child(Failed, None);
      } else {
        trace := trace + [BeforeTrack];
        if script.beforeTrack.Threw? {
          child := Child(Failed, None);
        } else {
          trace := trace + [RunTrack];
          child := if script.runTrack.Returned? then script.runTrack.value else Child(Failed, None);
        }
      }
    }
    var report := if trust.report then (if child.report.Some? then child.report else script.reportOnDisk) else None;
    trace := trace + [CaptureTerminal];
    var terminal := if script.captureTerminal.Returned? then script.captureTerminal.value else Facts(false);
    var validated := validate(track, report, trust.artifactRoot);
    var childFailed := child.status != Passed || !validated;
    var terminalFailed := !terminal.ok;
    trace := trace + [Recover];
    var recovery := if script.recover.Returned? then script.recover.value else Facts(false);
    var recoveryFailed := !recovery.ok;
    entry := Entry(track.key,
                   if child.status == Blocked then Blocked
                   else if childFailed || terminalFailed || recoveryFailed then Failed
                   else Passed,
                   if childFailed then Some(ChildStage)
                   else if terminalFailed then Some(TerminalState)
                   else if recoveryFailed then Some(HandoffRecovery)
                   else None,
                   trust, report, validated, recovery.ok);
    trace := trace + [Finished(entry)];
    assert trace == Calls(track, script, entry);
    CallsAreInOrder(track, script, entry);
  }

  function Tagged(index: nat, calls: seq<Call>): (events: seq<Event>)
    ensures |events| == |calls|
    ensures forall i :: 0 <= i < |calls| ==> events[i] == Event(index, calls[i])
  {
    seq(|calls|, i requires 0 <= i < |calls| => Event(index, calls[i]))
  }

  /** The trace of the executed tracks, one after the other. */
  function TraceOf(tracks: seq<Track>, scripts: seq<Script>, executed: seq<Entry>): seq<Event>
    requires |executed| <= |tracks| == |scripts|
  {
    if executed == [] then []
    else
      var n := |executed| - 1;
      TraceOf(tracks, scripts, executed[..n]) + Tagged(n, Calls(tracks[n], scripts[n], executed[n]))
  }

  /** The calls made for one track, out of a whole trace. */
  function OfTrack(trace: seq<Event>, index: nat): seq<Call> {
    if trace == [] then []
    else
      var before, last := OfTrack(trace[..|trace| - 1], index), trace[|trace| - 1];
      if last.index == index then before + [last.call] else before
  }

  /** One track after the other, and no calls for those behind the first `n`. */
  predicate IsSerial(trace: seq<Event>, n: nat) {
    && (forall e | e in trace :: e.index < n)
    && (forall i, j | 0 <= i < j < |trace| :: trace[i].index <= trace[j].index)
  }

  lemma {:induction false} OfTrackAppend(a: seq<Event>, b: seq<Event>, index: nat)
    ensures OfTrack(a + b, index) == OfTrack(a, index) + OfTrack(b, index)
    decreases |b|
  {
    if b == [] {
      assert a + b == a;
    } else {
      var n := |b| - 1;
      OfTrackAppend(a, b[..n], index);
      assert (a + b)[..|a + b| - 1] == a + b[..n];
    }
  }

  lemma {:induction false} OfTrackTagged(tag: nat, calls: seq<Call>, index: nat)
    ensures OfTrack(Tagged(tag, calls), index) == if index == tag then calls else []
    decreases |calls|
  {
    if calls != [] {
      var n := |calls| - 1;
      OfTrackTagged(tag, calls[..n], index);
      assert Tagged(tag, calls)[..n] == Tagged(tag, calls[..n]);
    }
  }

  lemma {:induction false} TraceIsSerial(tracks: seq<Track>, scripts: seq<Script>, executed: seq<Entry>)
    requires |executed| <= |tracks| == |scripts|
    ensures IsSerial(TraceOf(tracks, scripts, executed), |executed|)
    decreases |executed|
  {
    hide Calls;
    if executed != [] {
      var n := |executed| - 1;
      TraceIsSerial(tracks, scripts, executed[..n]);
      SerialAppend(TraceOf(tracks, scripts, executed[..n]), Tagged(n, Calls(tracks[n], scripts[n], executed[n])), n);
    }
  }

  lemma SerialAppend(trace: seq<Event>, more: seq<Event>, n: nat)
    requires IsSerial(trace, n) && forall e | e in more :: e.index == n
    ensures IsSerial(trace + more, n + 1)
  {
    var all := trace + more;
    assert forall k | 0 <= k < |trace| :: all[k] in trace;
    assert forall k | |trace| <= k < |all| :: all[k] == more[k - |trace|] && all[k] in more;
  }

  lemma {:induction false} TraceOfTrack(tracks: seq<Track>, scripts: seq<Script>, executed: seq<Entry>, index: nat)
    requires |executed| <= |tracks| == |scripts|
    ensures OfTrack(TraceOf(tracks, scripts, executed), index) ==
            if index < |executed| then Calls(tracks[index], scripts[index], executed[index]) else []
    decreases |executed|
  {
    hide Calls;
    if executed != [] {
      var n := |executed| - 1;
      var last := Calls(tracks[n], scripts[n], executed[n]);
      TraceOfTrack(tracks, scripts, executed[..n], index);
      OfTrackAppend(TraceOf(tracks, scripts, executed[..n]), Tagged(n, last), index);
      OfTrackTagged(n, last, index);
    }
  }

  /**
   The whole run: entries for the tracks in order, each of them faithful; it stops early
   only right after the first failed recovery when told to halt, and then it does stop.
   The tracks run one after the other, each with its own calls in order.
   */
  method RunSerialTrackLifecycle(tracks: seq<Track>, scripts: seq<Script>, validate: Validator, haltOnRecoveryFailure: bool)
    returns (executed: seq<Entry>, trace: seq<Event>)
    requires |tracks| == |scripts|
    ensures |executed| <= |tracks|
    ensures forall i | 0 <= i < |executed| :: Faithful(tracks[i], scripts[i], validate, executed[i])
    ensures IsSerial(trace, |executed|)
    ensures forall i | 0 <= i < |executed| :: InOrder(tracks[i], scripts[i], executed[i], OfTrack(trace, i))
    ensures trace == TraceOf(tracks, scripts, executed)
    ensures |executed| < |tracks| ==> haltOnRecoveryFailure && executed != [] && !RecoverySucceeds(scripts[|executed| - 1])
    ensures haltOnRecoveryFailure ==> forall i | 0 <= i < |executed| - 1 :: RecoverySucceeds(scripts[i])
  {
    hide Faithful, Calls, InOrder, IsSerial;
    executed, trace := [], [];
    for i := 0 to |tracks|
      invariant |executed| == i
      invariant forall k | 0 <= k < i :: Faithful(tracks[k], scripts[k], validate, executed[k])
      invariant haltOnRecoveryFailure ==> forall k | 0 <= k < i :: RecoverySucceeds(scripts[k])
      invariant trace == TraceOf(tracks, scripts, executed)
    {
      var entry, calls := RunOneTrack(tracks[i], scripts[i], validate);
      assert entry.recovered == RecoverySucceeds(scripts[i]) by {
        FaithfulRecovery(tracks[i], scripts[i], validate, entry);
      }
      assert (executed + [entry])[..i] == executed;
      executed := executed + [entry];
      trace := trace + Tagged(i, calls);
      if !entry.recovered && haltOnRecoveryFailure {
        break;
      }
    }
    TraceIsSerial(tracks, scripts, executed);
    forall i | 0 <= i < |executed|
      ensures InOrder(tracks[i], scripts[i], executed[i], OfTrack(trace, i))
    {
      TraceOfTrack(tracks, scripts, executed, i);
      CallsAreInOrder(tracks[i], scripts[i], executed[i]);
    }
  }

  lemma {:induction false} PrecedesInTrace(trace: seq<Event>, index: nat, a: Call, b: Call, j: nat)
    requires Precedes(OfTrack(trace, index), a, b) && j < |trace| && trace[j] == Event(index, b)
    ensures Event(index, a) in trace[..j]
    decreases |trace|
  {
    var n := |trace| - 1;
    var calls, before := OfTrack(trace, index), OfTrack(trace[..n], index);
    if j < n {
      assert forall k | 0 <= k < |before| :: calls[k] == before[k] && calls[..k] == before[..k];
      PrecedesInTrace(trace[..n], index, a, b, j);
      assert trace[..n][..j] == trace[..j];
    } else {
      assert calls[|before|] == b && calls[..|before|] == before;
      CallIsInTrace(trace[..n], index, a);
    }
  }

  lemma {:induction false} CallIsInTrace(trace: seq<Event>, index: nat, call: Call)
    requires call in OfTrack(trace, index)
    ensures Event(index, call) in trace
  {
    var n := |trace| - 1;
    if trace[n] != Event(index, call) {
      CallIsInTrace(trace[..n], index, call);
    }
  }

  /** Nowhere in a whole trace does a child run that its own clean-ups and preflight are not ahead of. */
  lemma ChildRunsBehindCleanUps(track: Track, script: Script, entry: Entry, trace: seq<Event>, index: nat, j: nat)
    requires InOrder(track, script, entry, OfTrack(trace, index)) && j < |trace|
    ensures trace[j] == Event(index, BeforeTrack) ==>
              Event(index, ClearReport) in trace[..j] && Event(index, ClearArtifacts) in trace[..j]
    ensures trace[j] == Event(index, RunTrack) ==>
              && Event(index, ClearReport) in trace[..j] && Event(index, ClearArtifacts) in trace[..j]
              && Event(index, BeforeTrack) in trace[..j]
    ensures trace[j] == Event(index, Recover) ==> Event(index, CaptureTerminal) in trace[..j]
  {
    hide Precedes;
    if trace[j] == Event(index, BeforeTrack) {
      PrecedesInTrace(trace, index, ClearReport, BeforeTrack, j);
      PrecedesInTrace(trace, index, ClearArtifacts, BeforeTrack, j);
    } else if trace[j] == Event(index, RunTrack) {
      PrecedesInTrace(trace, index, ClearReport, RunTrack, j);
      PrecedesInTrace(trace, index, ClearArtifacts, RunTrack, j);
      PrecedesInTrace(trace, index, BeforeTrack, RunTrack, j);
    } else if trace[j] == Event(index, Recover) {
      PrecedesInTrace(trace, index, CaptureTerminal, Recover, j);
    }
  }

  lemma FaithfulRecovery(track: Track, script: Script, validate: Validator, entry: Entry)
    requires Faithful(track, script, validate, entry)
    ensures entry.recovered == RecoverySucceeds(script)
  {
  }

  // ----- the trace contract

  function Count(trace: seq<Event>, e: Event): nat {
    if trace == [] then 0 else Count(trace[..|trace| - 1], e) + if trace[|trace| - 1] == e then 1 else 0
  }

  lemma {:induction false} CountAppend(a: seq<Event>, b: seq<Event>, e: Event)
    ensures Count(a + b, e) == Count(a, e) + Count(b, e)
    decreases |b|
  {
    if b == [] {
      assert a + b == a;
    } else {
      var n := |b| - 1;
      CountAppend(a, b[..n], e);
      assert (a + b)[..|a + b| - 1] == a + b[..n];
    }
  }

  lemma {:induction false} CountElsewhere(trace: seq<Event>, e: Event)
    requires e !in trace
    ensures Count(trace, e) == 0
  {
    if trace != [] {
      CountElsewhere(trace[..|trace| - 1], e);
    }
  }

  lemma CountOne(before: seq<Event>, e: Event, after: seq<Event>)
    requires e !in before && e !in after
    ensures Count(before + [e] + after, e) == 1
  {
    CountAppend(before + [e], after, e);
    CountAppend(before, [e], e);
    CountElsewhere(before, e);
    CountElsewhere(after, e);
    assert [e][..0] == [];
  }

  predicate IsClosing(call: Call, entry: Entry) {
    call == CaptureTerminal || call == Recover || call == Finished(entry)
  }

  lemma ClosingCallsOnce(index: nat, track: Track, script: Script, entry: Entry, call: Call)
    requires IsClosing(call, entry) || call == Started
    ensures Count(Tagged(index, Calls(track, script, entry)), Event(index, call)) == 1
  {
    hide Calls, IsClosing;
    var events := Tagged(index, Calls(track, script, entry));
    var k := OnlyCall(track, script, entry, call);
    assert events == events[..k] + [events[k]] + events[k + 1..];
    CountOne(events[..k], events[k], events[k + 1..]);
  }

  lemma OpeningCalls(track: Track, script: Script)
    ensures var calls := Opening(track, script);
            && calls != [] && calls[0] == Started
            && forall j :: 0 < j < |calls| ==> calls[j] in {ClearReport, ClearArtifacts, BeforeTrack, RunTrack}
  {
  }

  lemma OnlyCall(track: Track, script: Script, entry: Entry, call: Call) returns (k: nat)
    requires IsClosing(call, entry) || call == Started
    ensures var calls := Calls(track, script, entry);
            k < |calls| && calls[k] == call && forall j :: 0 <= j < |calls| && j != k ==> calls[j] != call
  {
    hide Opening;
    OpeningCalls(track, script);
    var n := |Opening(track, script)|;
    k := if call == Started then 0 else if call == CaptureTerminal then n else if call == Recover then n + 1 else n + 2;
  }

  /**
   For every executed track there is exactly one start, one terminal capture, one recovery
   and one finished event carrying its entry; for the others there is none.
   */
  lemma {:induction false} OneOfEach(tracks: seq<Track>, scripts: seq<Script>, executed: seq<Entry>, i: nat, call: Call)
    requires |executed| <= |tracks| == |scripts|
    requires i < |executed| ==> IsClosing(call, executed[i]) || call == Started
    ensures Count(TraceOf(tracks, scripts, executed), Event(i, call)) == if i < |executed| then 1 else 0
    decreases |executed|
  {
    hide Calls, IsClosing;
    if executed != [] {
      var n := |executed| - 1;
      var last := Tagged(n, Calls(tracks[n], scripts[n], executed[n]));
      CountAppend(TraceOf(tracks, scripts, executed[..n]), last, Event(i, call));
      OneOfEach(tracks, scripts, executed[..n], i, call);
      if i == n {
        ClosingCallsOnce(n, tracks[n], scripts[n], executed[n], call);
      } else {
        CountElsewhere(last, Event(i, call));
      }
    }
  }

  /** A child is launched only behind both clean-ups, and a report is believed only behind its own. */
  lemma NoStaleEvidence(track: Track, script: Script, validate: Validator, entry: Entry, calls: seq<Call>)
    requires Faithful(track, script, validate, entry) && InOrder(track, script, entry, calls)
    ensures forall j | 0 <= j < |calls| && calls[j] == RunTrack ::
              ClearReport in calls[..j] && ClearArtifacts in calls[..j] && BeforeTrack in calls[..j] && entry.trust == Trust(true, true)
    ensures entry.report.Some? ==> script.clearReport.Returned? && entry.trust.report
    ensures entry.status == Passed ==> RunTrack in calls && entry.failureStage == None
  {
  }

  /** What the child came to: its own outcome if it ran and returned, and otherwise a failure or, without a runner, a block. */
  function ChildStatus(track: Track, script: Script, calls: seq<Call>): Status {
    if !track.hasRunner then Blocked
    else if RunTrack in calls && script.runTrack.Returned? then script.runTrack.value.status
    else Failed
  }

  /**
   What an entry says, told from the calls made and what they came to: the trust, the report that is
   judged, the verdict on it, and the status and stage by the first of the four steps that failed.
   */
  lemma EntrySays(track: Track, script: Script, validate: Validator, entry: Entry, calls: seq<Call>)
    requires Faithful(track, script, validate, entry) && InOrder(track, script, entry, calls)
    ensures entry.trust.report <==> ClearReport in calls && script.clearReport.Returned?
    ensures entry.trust.artifactRoot <==> ClearArtifacts in calls && script.clearArtifacts.Returned?
    ensures !entry.trust.report ==> entry.report == None
    ensures entry.trust.report && RunTrack in calls && script.runTrack.Returned? && script.runTrack.value.report.Some? ==>
              entry.report == script.runTrack.value.report
    ensures entry.trust.report && (RunTrack !in calls || script.runTrack.Threw? || script.runTrack.value.report.None?) ==>
              entry.report == script.reportOnDisk
    ensures entry.validated == validate(track, entry.report, entry.trust.artifactRoot)
    ensures entry.recovered == (script.recover.Returned? && script.recover.value.ok)
    ensures var status := ChildStatus(track, script, calls);
            var childFailed := status != Passed || !entry.validated;
            var terminalFailed := script.captureTerminal.Threw? || !script.captureTerminal.value.ok;
            && entry.failureStage == (if childFailed then Some(ChildStage) else if terminalFailed then Some(TerminalState)
                                      else if !entry.recovered then Some(HandoffRecovery) else None)
            && entry.status == (if status == Blocked then Blocked else if entry.failureStage.Some? then Failed else Passed)
  {
  }
}
