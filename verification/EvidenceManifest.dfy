/**
 The evidence manifest of scripts/testbed/full-workflow-evidence-manifest.ts: what the
 builder records of each track, and what the validator demands of the record. The file
 system is an input: for every track, what the builder would find.
 */
module EvidenceManifest {
  import opened Wrappers

  // ----- limits and records

  const REPORT_PER_FILE_BYTES: nat := 2 * 1024 * 1024
  const TRACE_PER_TRACK_BYTES: nat := 512 * 1024
  const LOG_PER_FILE_BYTES: nat := 4 * 1024 * 1024
  const SCREENSHOT_PER_FILE_BYTES: nat := 2 * 1024 * 1024
  const TOTAL_BYTES: nat := 32 * 1024 * 1024

  datatype Kind = Reports | SupportingEvidence | MachineRuntimeTrace | Logs | Screenshots

  /** A SHA-256 digest in lower-case hexadecimal. */
  predicate IsDigest(s: string) {
    |s| == 64 && forall c | c in s :: '0' <= c <= '9' || 'a' <= c <= 'f'
  }

  datatype Content = Content(byteLength: nat, sha256: string)

  datatype Record = Record(path: string, track: string, kind: Kind, content: Content)

  function PerFileLimit(r: Record): nat {
    match r.kind
    case Reports => REPORT_PER_FILE_BYTES
    case SupportingEvidence => REPORT_PER_FILE_BYTES
    case MachineRuntimeTrace => TRACE_PER_TRACK_BYTES
    case Logs => LOG_PER_FILE_BYTES
    case Screenshots => SCREENSHOT_PER_FILE_BYTES
  }

  // ----- what the builder finds

  /** A track key as given: nothing (or an empty string), a string, or something else that is printed. */
  datatype Key = Missing | Named(name: string) | NotText(printed: string) {
    function Printed(): string {
      match this
      case Missing => ""
      case Named(name) => name
      case NotText(printed) => printed
    }

    predicate IsAbsent() {
      Missing? || (Named? && name == "")
    }
  }

  datatype ReportFile = NoReport | BadReport | Report(content: Content)

  datatype Extension = Json | Log | Txt | Png | Wav | Forbidden | Unsupported

  /** One artifact file. `score` and `rank` order screenshots: by name hint, then by path. */
  datatype Artifact = Artifact(path: string, extension: Extension, isPng: bool, disguised: bool, readable: bool,
                               score: nat, rank: nat, content: Content)

  datatype Tree = NoTree | BadTree | Files(files: seq<Artifact>)

  /** A part of a JSON file, recorded as a file of its own. */
  datatype Embedded = Embedded(file: string, jsonPath: string, content: Content)

  datatype Input = Input(key: Key, passed: bool, reportTrusted: bool, artifactsTrusted: bool, reportPath: string,
                         report: ReportFile, tree: Tree, captureFails: bool,
                         trace: Option<Embedded>, log: Option<Embedded>, primaryReason: Option<string>) {
    /** Digests are what `createHash("sha256")` returns. */
    predicate Hashed() {
      && (report.Report? ==> IsDigest(report.content.sha256))
      && (tree.Files? ==> forall a | a in tree.files :: IsDigest(a.content.sha256))
      && (trace.Some? ==> IsDigest(trace.value.content.sha256))
      && (log.Some? ==> IsDigest(log.value.content.sha256))
    }
  }

  datatype Reason =
    | IdentityAbsent | ReportUntrusted | ReportAbsent | ReportInvalid | RootUntrusted | TreeInvalid
    | ForbiddenArtifact | InvalidPng | UnsupportedArtifact | DisguisedArtifact | UnreadableArtifact
    | ChangedDuringCapture | ExceedsLimit | TotalExceeded

  datatype Failure = Failure(reason: Reason, subject: string)

  // ----- what one track contributes

  function ReportRecords(t: Input): seq<Record> {
    if t.reportTrusted && t.report.Report? then [Record(t.reportPath, t.key.Printed(), Reports, t.report.content)] else []
  }

  function ReportFailures(t: Input): seq<Failure> {
    if !t.reportTrusted then [Failure(ReportUntrusted, t.key.Printed())]
    else match t.report
      case NoReport => [Failure(ReportAbsent, t.key.Printed())]
      case BadReport => [Failure(ReportInvalid, t.key.Printed())]
      case Report(_) => []
  }

  function TreeFiles(t: Input): seq<Artifact> {
    if t.artifactsTrusted && t.tree.Files? then t.tree.files else []
  }

  function TreeFailures(t: Input): seq<Failure> {
    if !t.artifactsTrusted then [Failure(RootUntrusted, t.key.Printed())]
    else if t.tree.BadTree? then [Failure(TreeInvalid, t.key.Printed())]
    else []
  }

  predicate WavAllowed(t: Input) {
    t.key == Named("presenceAndAudio")
  }

  /** Why an artifact file is refused, if it is. */
  function Refusal(t: Input, a: Artifact): Option<Reason> {
    var allowedWav := a.extension == Wav && WavAllowed(t);
    if (a.extension == Forbidden || a.extension == Wav) && !allowedWav then Some(ForbiddenArtifact)
    else if a.extension == Png && !a.readable then Some(UnreadableArtifact)
    else if a.extension == Png && !a.isPng then Some(InvalidPng)
    else if a.extension == Unsupported then Some(UnsupportedArtifact)
    else if !allowedWav && a.extension != Png && !a.readable then Some(UnreadableArtifact)
    else if !allowedWav && a.extension != Png && a.disguised then Some(DisguisedArtifact)
    else None
  }

  function Accepted(t: Input, files: seq<Artifact>): seq<Artifact> {
    if files == [] then []
    else
      var before, a := Accepted(t, files[..|files| - 1]), files[|files| - 1];
      if Refusal(t, a).None? then before + [a] else before
  }

  function Refusals(t: Input, files: seq<Artifact>): seq<Failure> {
    if files == [] then []
    else
      var before, a := Refusals(t, files[..|files| - 1]), files[|files| - 1];
      if Refusal(t, a).None? then before else before + [Failure(Refusal(t, a).value, a.path)]
  }

  /** The files kept for the physical evidence. */
  function Kept(t: Input): seq<Artifact> {
    if t.captureFails then [] else Accepted(t, TreeFiles(t))
  }

  function RecordOf(t: Input, a: Artifact, kind: Kind): Record {
    Record(a.path, t.key.Printed(), kind, a.content)
  }

  function Supporting(t: Input, files: seq<Artifact>): seq<Record> {
    if files == [] then []
    else (if files[0].extension == Json then [RecordOf(t, files[0], SupportingEvidence)] else []) + Supporting(t, files[1..])
  }

  predicate IsLog(t: Input, a: Artifact) {
    (a.extension == Log || a.extension == Txt || (a.extension == Wav && WavAllowed(t))) && a.content.byteLength > 0
  }

  function PhysicalLogs(t: Input, files: seq<Artifact>): seq<Record> {
    if files == [] then []
    else (if IsLog(t, files[0]) then [RecordOf(t, files[0], Logs)] else []) + PhysicalLogs(t, files[1..])
  }

  // ----- screenshots, best first

  predicate Before(a: Artifact, b: Artifact) {
    a.score > b.score || (a.score == b.score && a.rank >= b.rank)
  }

  function InsertShot(a: Artifact, sorted: seq<Artifact>): (s: seq<Artifact>)
    ensures forall x :: x in s <==> x == a || x in sorted
    ensures |s| == |sorted| + 1
  {
    if sorted == [] || Before(a, sorted[0]) then [a] + sorted else [sorted[0]] + InsertShot(a, sorted[1..])
  }

  function SortedShots(files: seq<Artifact>): (s: seq<Artifact>)
    ensures forall x :: x in s <==> x in files && x.extension == Png && x.isPng
  {
    if files == [] then []
    else if files[0].extension == Png && files[0].isPng then InsertShot(files[0], SortedShots(files[1..]))
    else SortedShots(files[1..])
  }

  function Firsts(shots: seq<Artifact>, n: nat): (s: seq<Artifact>)
    ensures |s| <= n && |s| <= |shots|
    ensures forall i :: 0 <= i < |s| ==> s[i] == shots[i]
  {
    if |shots| <= n then shots else shots[..n]
  }

  function ShotRecords(t: Input, shots: seq<Artifact>): (s: seq<Record>)
    ensures |s| == |shots| && forall i :: 0 <= i < |s| ==> s[i] == RecordOf(t, shots[i], Screenshots)
  {
    seq(|shots|, i requires 0 <= i < |shots| => RecordOf(t, shots[i], Screenshots))
  }

  // ----- embedded sections

  /** `virtualRecord` */
  function VirtualRecord(t: Input, e: Embedded, kind: Kind): Record {
    Record(e.file + "#" + e.jsonPath, t.key.Printed(), kind, e.content)
  }

  function TraceRecords(t: Input): seq<Record> {
    if t.trace.Some? && !t.captureFails then [VirtualRecord(t, t.trace.value, MachineRuntimeTrace)] else []
  }

  function LogSections(t: Input): seq<Record> {
    if t.log.Some? then [VirtualRecord(t, t.log.value, Logs)] else []
  }

  // ----- the evidence of one track

  datatype Evidence = Evidence(key: Key, passed: bool, report: Option<string>, trace: Option<string>,
                               logs: seq<string>, screenshots: seq<string>, primaryReason: Option<string>, diagnostics: seq<string>)

  function Paths(records: seq<Record>): (paths: seq<string>)
    ensures |paths| == |records| && forall i :: 0 <= i < |records| ==> paths[i] == records[i].path
  {
    seq(|records|, i requires 0 <= i < |records| => records[i].path)
  }

  function FirstPath(records: seq<Record>): Option<string> {
    if records == [] then None else Some(records[0].path)
  }

  function TrackFiles(t: Input): seq<Record> {
    ReportRecords(t) + Supporting(t, Kept(t)) + PhysicalLogs(t, Kept(t)) + ShotRecords(t, SortedShots(Kept(t)))
  }

  function TrackSections(t: Input): seq<Record> {
    TraceRecords(t) + LogSections(t)
  }

  function TrackFailures(t: Input): seq<Failure> {
    ReportFailures(t) + TreeFailures(t) + Refusals(t, TreeFiles(t))
    + (if t.captureFails then [Failure(ChangedDuringCapture, t.key.Printed())] else [])
  }

  function TrackEvidence(t: Input): Evidence {
    var logs := Paths(PhysicalLogs(t, Kept(t)) + LogSections(t));
    Evidence(t.key, t.passed, FirstPath(ReportRecords(t)), FirstPath(TraceRecords(t)), logs,
             Paths(ShotRecords(t, Firsts(SortedShots(Kept(t)), 3))), t.primaryReason,
             Paths(Supporting(t, Kept(t))) + logs)
  }

  // ----- the manifest

  datatype Limits = Limits(reportPerFileBytes: nat, tracePerTrackBytes: nat, logPerFileBytes: nat, screenshotPerFileBytes: nat, totalBytes: nat)

  /** The constant part of a manifest. */
  datatype Head = Head(schemaVersion: string, limits: Limits, requiredKinds: seq<Kind>)

  const HEAD := Head("vem-local-testbed-full-workflow-evidence-manifest/v2",
                     Limits(REPORT_PER_FILE_BYTES, TRACE_PER_TRACK_BYTES, LOG_PER_FILE_BYTES, SCREENSHOT_PER_FILE_BYTES, TOTAL_BYTES),
                     [MachineRuntimeTrace, Logs])

  datatype Totals = Totals(byteLength: nat, tracks: nat, reports: nat, machineRuntimeTrace: nat, logs: nat, screenshots: nat)

  datatype Manifest = Manifest(head: Head, ok: bool, totals: Totals, tracks: seq<Evidence>, files: seq<Record>, sections: seq<Record>,
                               failures: seq<Failure>)

  /** How many records are of a kind. */
  function CountOf(records: seq<Record>, kind: Kind): nat {
    if records == [] then 0
    else CountOf(records[..|records| - 1], kind) + if records[|records| - 1].kind == kind then 1 else 0
  }

  function TotalsOf(tracks: seq<Evidence>, files: seq<Record>, sections: seq<Record>): Totals {
    Totals(Total(files), |tracks|, CountOf(files, Reports), CountOf(sections, MachineRuntimeTrace),
           CountOf(files, Logs) + CountOf(sections, Logs), CountOf(files, Screenshots))
  }

  function Total(files: seq<Record>): nat {
    if files == [] then 0 else Total(files[..|files| - 1]) + files[|files| - 1].content.byteLength
  }

  function OverLimit(records: seq<Record>): seq<Failure> {
    if records == [] then []
    else
      var before, r := OverLimit(records[..|records| - 1]), records[|records| - 1];
      if r.content.byteLength > PerFileLimit(r) then before + [Failure(ExceedsLimit, r.path)] else before
  }

  /** Everything the loop over the tracks pushes. */
  datatype Draft = Draft(tracks: seq<Evidence>, files: seq<Record>, sections: seq<Record>, failures: seq<Failure>)

  function Add(d: Draft, t: Input): Draft {
    if t.key.IsAbsent() then d.(failures := d.failures + [Failure(IdentityAbsent, "")])
    else Draft(d.tracks + [TrackEvidence(t)], d.files + TrackFiles(t), d.sections + TrackSections(t), d.failures + TrackFailures(t))
  }

  function DraftOf(inputs: seq<Input>): Draft {
    if inputs == [] then Draft([], [], [], []) else Add(DraftOf(inputs[..|inputs| - 1]), inputs[|inputs| - 1])
  }

  function ManifestOf(inputs: seq<Input>): Manifest {
    var d := DraftOf(inputs);
    var failures := d.failures + OverLimit(d.files + d.sections)
                    + (if Total(d.files) > TOTAL_BYTES then [Failure(TotalExceeded, "")] else []);
    Manifest(HEAD, failures == [], TotalsOf(d.tracks, d.files, d.sections), d.tracks, d.files, d.sections, failures)
  }

  // ----- the builder

  /** The loop over one track's artifact files. */
  method ValidateArtifacts(t: Input, files: seq<Artifact>) returns (validated: seq<Artifact>, failures: seq<Failure>)
    ensures validated == Accepted(t, files) && failures == Refusals(t, files)
  {
    validated, failures := [], [];
    for i := 0 to |files|
      invariant validated == Accepted(t, files[..i]) && failures == Refusals(t, files[..i])
    {
      var a := files[i];
      assert files[..i + 1][..i] == files[..i];
      var allowedWav := t.key == Named("presenceAndAudio") && a.extension == Wav;
      if (a.extension == Forbidden || a.extension == Wav) && !allowedWav {
        failures := failures + [Failure(ForbiddenArtifact, a.path)];
        continue;
      }
      if a.extension == Png {
        if !a.readable {
          failures := failures + [Failure(UnreadableArtifact, a.path)];
          continue;
        }
        if !a.isPng {
          failures := failures + [Failure(InvalidPng, a.path)];
          continue;
        }
      }
      if a.extension == Unsupported {
        failures := failures + [Failure(UnsupportedArtifact, a.path)];
        continue;
      }
      if !allowedWav && a.extension != Png {
        if !a.readable {
          failures := failures + [Failure(UnreadableArtifact, a.path)];
          continue;
        }
        if a.disguised {
          failures := failures + [Failure(DisguisedArtifact, a.path)];
          continue;
        }
      }
      validated := validated + [a];
    }
    assert files[..|files|] == files;
  }

  /** The body of the loop over the tracks, for a track with a key. */
  method BuildTrack(t: Input) returns (evidence: Evidence, files: seq<Record>, sections: seq<Record>, failures: seq<Failure>)
    ensures evidence == TrackEvidence(t) && files == TrackFiles(t)
    ensures sections == TrackSections(t) && failures == TrackFailures(t)
  {
    hide Accepted, Refusals, Supporting, PhysicalLogs, SortedShots, Firsts;
    var track := t.key.Printed();
    failures := [];
    var report: Option<Record> := None;
    if !t.reportTrusted {
      failures := failures + [Failure(ReportUntrusted, track)];
    } else if t.report == NoReport {
      failures := failures + [Failure(ReportAbsent, track)];
    } else if t.report == BadReport {
      failures := failures + [Failure(ReportInvalid, track)];
    } else {
      report := Some(Record(t.reportPath, track, Reports, t.report.content));
    }
    var artifacts: seq<Artifact> := [];
    if !t.artifactsTrusted {
      failures := failures + [Failure(RootUntrusted, track)];
    } else if t.tree.BadTree? {
      failures := failures + [Failure(TreeInvalid, track)];
    } else if t.tree.Files? {
      artifacts := t.tree.files;
    }
    assert failures == ReportFailures(t) + TreeFailures(t) && artifacts == TreeFiles(t);
    var refused;
    artifacts, refused := ValidateArtifacts(t, artifacts);
    failures := failures + refused;
    var trace := t.trace;
    if t.captureFails {
      failures := failures + [Failure(ChangedDuringCapture, track)];
      trace, artifacts := None, [];
    }
    assert artifacts == Kept(t);
    var supporting, physicalLogs := Supporting(t, artifacts), PhysicalLogs(t, artifacts);
    var shots := SortedShots(artifacts);
    var screenshots, selected := ShotRecords(t, shots), ShotRecords(t, Firsts(shots, 3));
    var embeddedLog := if t.log.Some? then [VirtualRecord(t, t.log.value, Logs)] else [];
    var logs := physicalLogs + embeddedLog;
    files := (if report.Some? then [report.value] else []) + supporting + physicalLogs + screenshots;
    sections := (if trace.Some? then [VirtualRecord(t, trace.value, MachineRuntimeTrace)] else []) + embeddedLog;
    evidence := Evidence(t.key, t.passed,
                         if report.Some? then Some(report.value.path) else None,
                         if trace.Some? then Some(VirtualRecord(t, trace.value, MachineRuntimeTrace).path) else None,
                         Paths(logs), Paths(selected), t.primaryReason,
                         Paths(supporting) + Paths(logs));
  }

  method BuildManifest(inputs: seq<Input>) returns (m: Manifest)
    ensures m == ManifestOf(inputs)
  {
    hide TrackEvidence, TrackFiles, TrackSections, TrackFailures, Total, OverLimit;
    var tracks: seq<Evidence>, files: seq<Record>, sections: seq<Record>, blocking: seq<Failure> := [], [], [], [];
    for i := 0 to |inputs|
      invariant Draft(tracks, files, sections, blocking) == DraftOf(inputs[..i])
    {
      assert inputs[..i + 1][..i] == inputs[..i];
      if inputs[i].key.IsAbsent() {
        blocking := blocking + [Failure(IdentityAbsent, "")];
        continue;
      }
      var evidence, trackFiles, trackSections, failures := BuildTrack(inputs[i]);
      blocking := blocking + failures;
      files := files + trackFiles;
      sections := sections + trackSections;
      tracks := tracks + [evidence];
    }
    assert inputs[..|inputs|] == inputs;
    m := Finish(tracks, files, sections, blocking);
  }

  /** The per-file and total limits, over everything recorded. */
  method Finish(tracks: seq<Evidence>, files: seq<Record>, sections: seq<Record>, blocking: seq<Failure>) returns (m: Manifest)
    ensures var failures := blocking + OverLimit(files + sections)
                            + (if Total(files) > TOTAL_BYTES then [Failure(TotalExceeded, "")] else []);
            m == Manifest(HEAD, failures == [], TotalsOf(tracks, files, sections), tracks, files, sections, failures)
  {
    var failures := blocking;
    var records := files + sections;
    for i := 0 to |records|
      invariant failures == blocking + OverLimit(records[..i])
    {
      assert records[..i + 1][..i] == records[..i];
      if records[i].content.byteLength > PerFileLimit(records[i]) {
        failures := failures + [Failure(ExceedsLimit, records[i].path)];
      }
    }
    assert records[..|records|] == records;
    var totalBytes := SumBytes(files);
    if totalBytes > TOTAL_BYTES {
      failures := failures + [Failure(TotalExceeded, "")];
    }
    var reports := CountKind(files, Reports);
    var traces := CountKind(sections, MachineRuntimeTrace);
    var logs := CountKind(files, Logs);
    var sectionLogs := CountKind(sections, Logs);
    var screenshots := CountKind(files, Screenshots);
    m := Manifest(HEAD, |failures| == 0, Totals(totalBytes, |tracks|, reports, traces, logs + sectionLogs, screenshots),
                  tracks, files, sections, failures);
  }

  /** `filter` by kind, and `length`. */
  method CountKind(records: seq<Record>, kind: Kind) returns (count: nat)
    ensures count == CountOf(records, kind)
  {
    count := 0;
    for i := 0 to |records|
      invariant count == CountOf(records[..i], kind)
    {
      assert records[..i + 1][..i] == records[..i];
      if records[i].kind == kind {
        count := count + 1;
      }
    }
    assert records[..|records|] == records;
  }

  method SumBytes(files: seq<Record>) returns (total: nat)
    ensures total == Total(files)
  {
    total := 0;
    for i := 0 to |files|
      invariant total == Total(files[..i])
    {
      assert files[..i + 1][..i] == files[..i];
      total := total + files[i].content.byteLength;
    }
    assert files[..|files|] == files;
  }

  // ----- the validator

  predicate IsSpace(c: char) {
    || c in {' ', '\t', '\n', '\r', '\U{000B}', '\U{000C}', '\U{00A0}', '\U{1680}', '\U{2028}', '\U{2029}', '\U{202F}', '\U{205F}', '\U{3000}', '\U{FEFF}'}
    || '\U{2000}' <= c <= '\U{200A}'
  }

  /** `trim() === ""` */
  predicate IsBlank(s: string) {
    forall c | c in s :: IsSpace(c)
  }

  predicate Owns(records: seq<Record>, track: string, kind: Kind, path: string) {
    exists r :: r in records && r.track == track && r.kind == kind && r.path == path
  }

  predicate OwnsAny(records: seq<Record>, track: string, path: string) {
    exists r :: r in records && r.track == track && r.path == path
  }

  predicate EvidencePasses(e: Evidence, records: seq<Record>) {
    && e.key.Named?
    && var track := e.key.name;
       && (e.report.Some? ==> Owns(records, track, Reports, e.report.value))
       && (if e.passed then
             && e.report.Some?
             && (e.trace.Some? ==> Owns(records, track, MachineRuntimeTrace, e.trace.value))
             && (forall p | p in e.logs :: Owns(records, track, Logs, p))
             && (forall p | p in e.screenshots :: Owns(records, track, Screenshots, p))
             && |e.screenshots| <= 3
           else
             && e.primaryReason.Some? && !IsBlank(e.primaryReason.value)
             && (forall p | p in e.diagnostics :: OwnsAny(records, track, p)))
  }

  predicate ValidFile(r: Record) {
    IsDigest(r.content.sha256)
  }

  predicate ValidSection(r: Record) {
    (r.kind == MachineRuntimeTrace || r.kind == Logs) && '#' in r.path && IsDigest(r.content.sha256)
  }

  predicate WithinLimit(r: Record) {
    r.content.byteLength <= PerFileLimit(r)
  }

  /** What an empty failure list from the validator means. */
  predicate Passes(m: Manifest) {
    var records := m.files + m.sections;
    && m.head == HEAD && m.ok && m.failures == []
    && m.tracks != [] && (forall e | e in m.tracks :: EvidencePasses(e, records))
    && (forall r | r in m.files :: ValidFile(r))
    && (forall r | r in m.sections :: ValidSection(r))
    && (forall r | r in records :: WithinLimit(r))
    && Total(m.files) == m.totals.byteLength <= TOTAL_BYTES
  }

  method OwnsAll(records: seq<Record>, track: string, kind: Kind, paths: seq<string>) returns (ok: bool)
    ensures ok <==> forall p | p in paths :: Owns(records, track, kind, p)
  {
    for i := 0 to |paths|
      invariant forall k | 0 <= k < i :: Owns(records, track, kind, paths[k])
    {
      if !Owns(records, track, kind, paths[i]) {
        return false;
      }
    }
    return true;
  }

  /** One turn of the track loop: how many failures it pushes. */
  method ValidateTrack(e: Evidence, records: seq<Record>) returns (failures: nat)
    ensures failures == 0 <==> EvidencePasses(e, records)
  {
    hide Owns, OwnsAny, IsBlank;
    failures := 0;
    if !e.key.Named? || (!e.passed && (e.primaryReason.None? || IsBlank(e.primaryReason.value))) {
      return 1;
    }
    var track := e.key.name;
    if e.report.Some? && !Owns(records, track, Reports, e.report.value) {
      failures := failures + 1;
    }
    if e.passed && e.report.None? {
      failures := failures + 1;
    }
    if e.passed {
      if e.trace.Some? && !Owns(records, track, MachineRuntimeTrace, e.trace.value) {
        failures := failures + 1;
      }
      var logsOwned := OwnsAll(records, track, Logs, e.logs);
      if !logsOwned {
        failures := failures + 1;
      }
      var screenshotsOwned := OwnsAll(records, track, Screenshots, e.screenshots);
      if !screenshotsOwned {
        failures := failures + 1;
      }
      if |e.screenshots| > 3 {
        failures := failures + 1;
      }
    } else if exists p :: p in e.diagnostics && !OwnsAny(records, track, p) {
      failures := failures + 1;
    }
  }

  /** `validateFullWorkflowEvidenceManifest`, counting its failures. */
  method ValidateManifest(m: Manifest) returns (failures: nat)
    ensures failures == 0 <==> Passes(m)
  {
    hide EvidencePasses, Total, ValidSection, ValidFile, PerFileLimit;
    failures := 0;
    var records := m.files + m.sections;
    if m.head.schemaVersion != HEAD.schemaVersion {
      failures := failures + 1;
    }
    if !m.ok {
      failures := failures + 1;
    }
    if m.head.limits != HEAD.limits || m.head.requiredKinds != HEAD.requiredKinds {
      failures := failures + 1;
    }
    if |m.tracks| == 0 {
      failures := failures + 1;
    }
    ghost var before := failures;
    for i := 0 to |m.tracks|
      invariant failures >= before
      invariant failures == before <==> forall k | 0 <= k < i :: EvidencePasses(m.tracks[k], records)
    {
      var pushed := ValidateTrack(m.tracks[i], records);
      failures := failures + pushed;
    }
    assert (forall e | e in m.tracks :: EvidencePasses(e, records)) <==> failures == before;
    if exists r :: r in m.files && !ValidFile(r) {
      failures := failures + 1;
    }
    if exists r :: r in m.sections && !ValidSection(r) {
      failures := failures + 1;
    }
    before := failures;
    for i := 0 to |records|
      invariant failures >= before
      invariant failures == before <==> forall k | 0 <= k < i :: WithinLimit(records[k])
    {
      if records[i].content.byteLength > PerFileLimit(records[i]) {
        failures := failures + 1;
      }
    }
    assert (forall r | r in records :: WithinLimit(r)) <==> failures == before;
    var totalBytes := SumBytes(m.files);
    if totalBytes != m.totals.byteLength {
      failures := failures + 1;
    }
    if totalBytes > TOTAL_BYTES {
      failures := failures + 1;
    }
    failures := failures + |m.failures|;
  }

  // ----- what the builder makes, the validator accepts

  /** The inputs the validator can be satisfied with. */
  predicate Reportable(t: Input) {
    t.key.Named? && (!t.passed ==> t.primaryReason.Some? && !IsBlank(t.primaryReason.value))
  }

  lemma {:induction false} SupportingAreOwn(t: Input, files: seq<Artifact>)
    ensures forall r | r in Supporting(t, files) :: r.track == t.key.Printed() && r.kind == SupportingEvidence &&
              exists a :: a in files && r.content == a.content
  {
    if files != [] {
      SupportingAreOwn(t, files[1..]);
      assert files[0] in files;
    }
  }

  lemma {:induction false} LogsAreOwn(t: Input, files: seq<Artifact>)
    ensures forall r | r in PhysicalLogs(t, files) :: r.track == t.key.Printed() && r.kind == Logs &&
              exists a :: a in files && r.content == a.content
  {
    if files != [] {
      LogsAreOwn(t, files[1..]);
      assert files[0] in files;
    }
  }

  lemma {:induction false} AcceptedAreFiles(t: Input, files: seq<Artifact>)
    ensures forall a | a in Accepted(t, files) :: a in files
  {
    if files != [] {
      AcceptedAreFiles(t, files[..|files| - 1]);
    }
  }

  /** Nothing is refused exactly when every file is acceptable, and then every file is kept. */
  lemma {:induction false} RefusedOrAccepted(t: Input, files: seq<Artifact>)
    ensures forall a | a in files && Refusal(t, a).None? :: a in Accepted(t, files)
    ensures Refusals(t, files) == [] <==> forall a | a in files :: Refusal(t, a).None?
  {
    hide Refusal;
    if files != [] {
      var n := |files| - 1;
      RefusedOrAccepted(t, files[..n]);
      assert files == files[..n] + [files[n]];
    }
  }

  lemma {:induction false} JsonIsRecorded(t: Input, files: seq<Artifact>, a: Artifact)
    requires a in files && a.extension == Json
    ensures RecordOf(t, a, SupportingEvidence) in Supporting(t, files)
  {
    if files[0] != a {
      JsonIsRecorded(t, files[1..], a);
    }
  }

  lemma {:induction false} LogIsRecorded(t: Input, files: seq<Artifact>, a: Artifact)
    requires a in files && IsLog(t, a)
    ensures RecordOf(t, a, Logs) in PhysicalLogs(t, files)
  {
    hide IsLog;
    if files[0] != a {
      LogIsRecorded(t, files[1..], a);
    }
  }

  lemma ShotIsRecorded(t: Input, shots: seq<Artifact>, a: Artifact)
    requires a in shots
    ensures RecordOf(t, a, Screenshots) in ShotRecords(t, shots)
  {
    var k :| 0 <= k < |shots| && shots[k] == a;
    assert ShotRecords(t, shots)[k] == RecordOf(t, a, Screenshots);
  }

  /** The kind under which an accepted file is recorded, by its extension. */
  function KindOf(a: Artifact): Kind {
    match a.extension
    case Json => SupportingEvidence
    case Png => Screenshots
    case _ => Logs
  }

  predicate IsEmptyLog(a: Artifact) {
    KindOf(a) == Logs && a.content.byteLength == 0
  }

  /** A track without a failure records every file of its tree under its kind, but for empty logs. */
  lemma NothingIsLost(t: Input, a: Artifact)
    requires TrackFailures(t) == [] && a in TreeFiles(t) && !IsEmptyLog(a)
    ensures RecordOf(t, a, KindOf(a)) in TrackFiles(t)
  {
    hide Accepted, Refusals, Supporting, PhysicalLogs, SortedShots, ShotRecords;
    RefusedOrAccepted(t, TreeFiles(t));
    assert Refusals(t, TreeFiles(t)) == [] && !t.captureFails;
    assert a in Kept(t) && Refusal(t, a).None?;
    if a.extension == Json {
      JsonIsRecorded(t, Kept(t), a);
    } else if a.extension == Png {
      ShotIsRecorded(t, SortedShots(Kept(t)), a);
    } else {
      LogIsRecorded(t, Kept(t), a);
    }
  }

  lemma KeptAreHashed(t: Input)
    requires t.Hashed()
    ensures forall a | a in Kept(t) :: IsDigest(a.content.sha256)
  {
    hide IsDigest;
    AcceptedAreFiles(t, TreeFiles(t));
  }

  /** Every record of a track carries its key and a digest; every section names a part of a file. */
  lemma TrackRecordsAreValid(t: Input)
    requires t.Hashed()
    ensures forall r | r in TrackFiles(t) :: ValidFile(r)
    ensures forall r | r in TrackSections(t) :: ValidSection(r)
  {
    hide IsDigest, Kept;
    KeptAreHashed(t);
    SupportingAreOwn(t, Kept(t));
    LogsAreOwn(t, Kept(t));
    forall r | r in ShotRecords(t, SortedShots(Kept(t)))
      ensures ValidFile(r)
    {
      var k :| 0 <= k < |SortedShots(Kept(t))| && r == RecordOf(t, SortedShots(Kept(t))[k], Screenshots);
      assert SortedShots(Kept(t))[k] in Kept(t);
    }
    forall r | r in TrackSections(t)
      ensures ValidSection(r)
    {
      var e := if t.log.Some? && r in LogSections(t) then t.log.value else t.trace.value;
      assert (e.file + "#" + e.jsonPath)[|e.file|] == '#';
    }
  }

  lemma OwnsPaths(records: seq<Record>, more: seq<Record>, track: string, kind: Kind)
    requires forall r | r in more :: r in records && r.track == track && r.kind == kind
    ensures forall p | p in Paths(more) :: Owns(records, track, kind, p)
  {
    forall p | p in Paths(more)
      ensures Owns(records, track, kind, p)
    {
      var k :| 0 <= k < |more| && Paths(more)[k] == p;
      assert more[k] in more;
    }
  }

  lemma OwnsAnyPaths(records: seq<Record>, more: seq<Record>, track: string)
    requires forall r | r in more :: r in records && r.track == track
    ensures forall p | p in Paths(more) :: OwnsAny(records, track, p)
  {
    forall p | p in Paths(more)
      ensures OwnsAny(records, track, p)
    {
      var k :| 0 <= k < |more| && Paths(more)[k] == p;
      assert more[k] in more;
    }
  }

  /** The paths a track's evidence mentions are all among records that carry its key. */
  lemma TrackOwnsItsPaths(t: Input, records: seq<Record>)
    requires t.key.Named? && TrackFailures(t) == []
    requires forall r | r in TrackFiles(t) + TrackSections(t) :: r in records
    ensures EvidencePasses(TrackEvidence(t), records) <==> Reportable(t)
  {
    hide Kept, Supporting, PhysicalLogs, SortedShots, IsBlank, Owns, OwnsAny, Refusals;
    var track := t.key.name;
    SupportingAreOwn(t, Kept(t));
    LogsAreOwn(t, Kept(t));
    OwnsPaths(records, ReportRecords(t), track, Reports);
    OwnsPaths(records, TraceRecords(t), track, MachineRuntimeTrace);
    OwnsPaths(records, PhysicalLogs(t, Kept(t)) + LogSections(t), track, Logs);
    OwnsAnyPaths(records, PhysicalLogs(t, Kept(t)) + LogSections(t), track);
    OwnsAnyPaths(records, Supporting(t, Kept(t)), track);
    SelectedAreRecorded(t, records, track);
    assert ReportRecords(t) != [];
    assert TrackEvidence(t).report == Some(Paths(ReportRecords(t))[0]);
    assert TraceRecords(t) != [] ==> TrackEvidence(t).trace == Some(Paths(TraceRecords(t))[0]);
  }

  lemma SelectedAreRecorded(t: Input, records: seq<Record>, track: string)
    requires t.key.Printed() == track
    requires forall r | r in ShotRecords(t, SortedShots(Kept(t))) :: r in records
    ensures forall p | p in Paths(ShotRecords(t, Firsts(SortedShots(Kept(t)), 3))) :: Owns(records, track, Screenshots, p)
  {
    hide Kept, SortedShots;
    var shots := SortedShots(Kept(t));
    var selected := ShotRecords(t, Firsts(shots, 3));
    forall r | r in selected
      ensures r in records && r.track == track && r.kind == Screenshots
    {
      var k :| 0 <= k < |selected| && selected[k] == r;
      assert ShotRecords(t, shots)[k] == r;
    }
    OwnsPaths(records, selected, track, Screenshots);
  }

  /** Everything a draft has pushed, it keeps. */
  lemma {:induction false} DraftKeeps(inputs: seq<Input>, k: nat)
    requires k < |inputs| && DraftOf(inputs).failures == []
    ensures !inputs[k].key.IsAbsent() && TrackFailures(inputs[k]) == []
    ensures forall r | r in TrackFiles(inputs[k]) :: r in DraftOf(inputs).files
    ensures forall r | r in TrackSections(inputs[k]) :: r in DraftOf(inputs).sections
    decreases |inputs|
  {
    hide TrackFailures, TrackFiles, TrackSections, TrackEvidence;
    var n := |inputs| - 1;
    if k < n {
      DraftKeeps(inputs[..n], k);
    }
  }

  /** One evidence entry per track, in order, when nothing failed. */
  lemma {:induction false} DraftTracks(inputs: seq<Input>)
    requires DraftOf(inputs).failures == []
    ensures |DraftOf(inputs).tracks| == |inputs|
    ensures forall k | 0 <= k < |inputs| :: DraftOf(inputs).tracks[k] == TrackEvidence(inputs[k])
    decreases |inputs|
  {
    hide TrackFailures, TrackFiles, TrackSections, TrackEvidence;
    if inputs != [] {
      DraftTracks(inputs[..|inputs| - 1]);
    }
  }

  lemma {:induction false} DraftIsValid(inputs: seq<Input>)
    requires forall t | t in inputs :: t.Hashed()
    ensures forall r | r in DraftOf(inputs).files :: ValidFile(r)
    ensures forall r | r in DraftOf(inputs).sections :: ValidSection(r)
    decreases |inputs|
  {
    hide TrackFailures, TrackFiles, TrackSections, TrackEvidence, ValidFile, ValidSection, Input.Hashed;
    if inputs != [] {
      DraftIsValid(inputs[..|inputs| - 1]);
      TrackRecordsAreValid(inputs[|inputs| - 1]);
    }
  }

  lemma {:induction false} NothingOverLimit(records: seq<Record>)
    ensures OverLimit(records) == [] <==> forall r | r in records :: WithinLimit(r)
  {
    if records != [] {
      var n := |records| - 1;
      NothingOverLimit(records[..n]);
      assert records[n] in records && forall r | r in records[..n] :: r in records;
      assert forall r | r in records :: r in records[..n] || r == records[n];
    }
  }

  /**
   The agreement. A manifest the builder calls ok passes the validator exactly when there is
   a track, every key is a string, and every failed track has a reason that is not blank.
   */
  lemma OkManifestPasses(inputs: seq<Input>)
    requires forall t | t in inputs :: t.Hashed()
    requires ManifestOf(inputs).ok
    ensures Passes(ManifestOf(inputs)) <==> inputs != [] && forall t | t in inputs :: Reportable(t)
  {
    hide TrackFailures, TrackFiles, TrackSections, TrackEvidence, EvidencePasses, Reportable, ValidFile, ValidSection,
      WithinLimit, OverLimit, Total, DraftOf, Input.Hashed;
    var m := ManifestOf(inputs);
    var records := m.files + m.sections;
    DraftTracks(inputs);
    DraftIsValid(inputs);
    NothingOverLimit(records);
    forall k | 0 <= k < |inputs|
      ensures EvidencePasses(m.tracks[k], records) <==> Reportable(inputs[k])
    {
      DraftKeeps(inputs, k);
      if inputs[k].key.Named? {
        TrackOwnsItsPaths(inputs[k], records);
      } else {
        UnnamedIsRefused(inputs[k], records);
      }
    }
    assert forall k | 0 <= k < |inputs| :: inputs[k] in inputs && m.tracks[k] in m.tracks;
  }

  lemma UnnamedIsRefused(t: Input, records: seq<Record>)
    requires !t.key.Named?
    ensures !EvidencePasses(TrackEvidence(t), records) && !Reportable(t)
  {
  }

  /** With no tracks the builder says ok, and the validator refuses. */
  lemma EmptyManifestIsOkButRefused()
    ensures ManifestOf([]).ok && !Passes(ManifestOf([]))
  {
    assert OverLimit([] + []) == [] && Total([]) == 0;
  }

  /** Building and then validating, in one run. */
  method BuildAndValidate(inputs: seq<Input>) returns (ok: bool, failures: nat)
    requires forall t | t in inputs :: t.Hashed()
    ensures ok ==> (failures == 0 <==> inputs != [] && forall t | t in inputs :: Reportable(t))
    ensures !ok ==> failures > 0
  {
    hide Passes, ManifestOf, Reportable, Input.Hashed;
    var m := BuildManifest(inputs);
    failures := ValidateManifest(m);
    ok := m.ok;
    if ok {
      OkManifestPasses(inputs);
    } else {
      NotOkIsRefused(m);
    }
  }

  lemma NotOkIsRefused(m: Manifest)
    requires !m.ok
    ensures !Passes(m)
  {
  }
}
