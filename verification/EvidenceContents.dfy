/**
 What the evidence manifest holds of one track, told by the positions of its files alone:
 which artifact files are kept, which of them are logs, diagnostics and screenshots, in what
 order, and which screenshots are selected.
 */
module EvidenceContents {
  import opened EvidenceManifest
  import opened Positions
  import opened Wrappers

  // ----- lists of positions

  predicate AreInside(p: seq<nat>, files: seq<Artifact>) {
    forall i | 0 <= i < |p| :: p[i] < |files|
  }

  function Pick(files: seq<Artifact>, p: seq<nat>): (s: seq<Artifact>)
    requires AreInside(p, files)
    ensures |s| == |p| && forall i :: 0 <= i < |p| ==> s[i] == files[p[i]]
  {
    seq(|p|, i requires 0 <= i < |p| => files[p[i]])
  }

  function PathsAt(files: seq<Artifact>, p: seq<nat>): (s: seq<string>)
    requires AreInside(p, files)
    ensures |s| == |p| && forall i :: 0 <= i < |p| ==> s[i] == files[p[i]].path
  {
    seq(|p|, i requires 0 <= i < |p| => files[p[i]].path)
  }

  function RecordsAt(t: Input, files: seq<Artifact>, p: seq<nat>, kind: Kind): (s: seq<Record>)
    requires AreInside(p, files)
    ensures |s| == |p|
    ensures forall i :: 0 <= i < |p| ==> s[i] == Record(files[p[i]].path, t.key.Printed(), kind, files[p[i]].content)
  {
    seq(|p|, i requires 0 <= i < |p| => Record(files[p[i]].path, t.key.Printed(), kind, files[p[i]].content))
  }

  // ----- the files of each kind

  function JsonAt(files: seq<Artifact>): set<nat> {
    set k: nat | k < |files| && files[k].extension == Json
  }

  /** Logs, texts, and the sounds of one track; empty ones aside. */
  function LogsAt(t: Input, files: seq<Artifact>): set<nat> {
    set k: nat | k < |files| && files[k].content.byteLength > 0
                 && (files[k].extension in {Log, Txt} || (files[k].extension == Wav && t.key == Named("presenceAndAudio")))
  }

  function ShotsAt(files: seq<Artifact>): set<nat> {
    set k: nat | k < |files| && files[k].extension == Png && files[k].isPng
  }

  /** A file that is not refused: readable and what its name says, or one of the sounds of one track. */
  predicate IsAcceptable(t: Input, a: Artifact) {
    || (a.extension in {Json, Log, Txt} && a.readable && !a.disguised)
    || (a.extension == Png && a.readable && a.isPng)
    || (a.extension == Wav && t.key == Named("presenceAndAudio"))
  }

  function AcceptableAt(t: Input, files: seq<Artifact>): set<nat> {
    set k: nat | k < |files| && IsAcceptable(t, files[k])
  }

  lemma RefusedUnlessAcceptable(t: Input, a: Artifact)
    ensures Refusal(t, a).None? <==> IsAcceptable(t, a)
  {
  }

  lemma {:induction false} AcceptedPositions(t: Input, files: seq<Artifact>) returns (p: seq<nat>)
    ensures Lists(p, AcceptableAt(t, files)) && AreInside(p, files) && Accepted(t, files) == Pick(files, p)
    decreases |files|
  {
    hide Refusal, IsAcceptable;
    p := [];
    if files != [] {
      var n := |files| - 1;
      p := AcceptedPositions(t, files[..n]);
      RefusedUnlessAcceptable(t, files[n]);
      ghost var before := AcceptableAt(t, files[..n]);
      assert forall k: nat :: k in AcceptableAt(t, files) <==> k in before || (k == n && IsAcceptable(t, files[n]));
      if IsAcceptable(t, files[n]) {
        ListsLast(p, before, n, AcceptableAt(t, files));
        p := p + [n];
      }
    }
  }

  /** The kept files are the acceptable ones of a trusted tree, in order, unless one changed during the capture. */
  lemma KeptAreTheAcceptable(t: Input)
    ensures t.captureFails || !t.artifactsTrusted || !t.tree.Files? ==> Kept(t) == []
    ensures !t.captureFails && t.artifactsTrusted && t.tree.Files? ==>
              exists p :: Lists(p, AcceptableAt(t, t.tree.files)) && AreInside(p, t.tree.files) && Kept(t) == Pick(t.tree.files, p)
  {
    hide AcceptableAt;
    if t.artifactsTrusted && t.tree.Files? {
      var p := AcceptedPositions(t, t.tree.files);
    } else {
      assert Accepted(t, []) == [];
    }
  }

  lemma {:induction false} JsonPositions(t: Input, files: seq<Artifact>) returns (p: seq<nat>)
    ensures Lists(p, JsonAt(files)) && AreInside(p, files) && Supporting(t, files) == RecordsAt(t, files, p, SupportingEvidence)
  {
    hide Lists;
    p := [];
    if files == [] {
      NothingToList(JsonAt(files));
    } else {
      var q := JsonPositions(t, files[1..]);
      ListsBehind(q, JsonAt(files[1..]), files[0].extension == Json, JsonAt(files));
      p := (if files[0].extension == Json then [0] else []) + Shifted(q);
      ListsInside(p, JsonAt(files), files);
    }
  }

  lemma {:induction false} LogPositions(t: Input, files: seq<Artifact>) returns (p: seq<nat>)
    ensures Lists(p, LogsAt(t, files)) && AreInside(p, files) && PhysicalLogs(t, files) == RecordsAt(t, files, p, Logs)
  {
    hide Lists;
    p := [];
    if files == [] {
      NothingToList(LogsAt(t, files));
    } else {
      var q := LogPositions(t, files[1..]);
      ListsBehind(q, LogsAt(t, files[1..]), IsLog(t, files[0]), LogsAt(t, files));
      p := (if IsLog(t, files[0]) then [0] else []) + Shifted(q);
      ListsInside(p, LogsAt(t, files), files);
    }
  }

  lemma ListsInside(p: seq<nat>, wanted: set<nat>, files: seq<Artifact>)
    requires Lists(p, wanted) && forall k | k in wanted :: k < |files|
    ensures AreInside(p, files)
  {
    assert forall i | 0 <= i < |p| :: p[i] in p;
  }

  // ----- the order of screenshots

  /** File `i` is ahead of file `k`: by the better score, then the later path, then the earlier position. */
  predicate Ahead(files: seq<Artifact>, i: nat, k: nat)
    requires i < |files| && k < |files|
  {
    || files[i].score > files[k].score
    || (files[i].score == files[k].score && files[i].rank > files[k].rank)
    || (files[i].score == files[k].score && files[i].rank == files[k].rank && i < k)
  }

  /** All screenshots, best first. */
  ghost predicate Ranks(p: seq<nat>, files: seq<Artifact>) {
    && AreInside(p, files)
    && (forall i, j | 0 <= i < j < |p| :: Ahead(files, p[i], p[j]))
    && (forall k :: k in p <==> k in ShotsAt(files))
  }

  lemma {:induction false} InsertedAt(a: Artifact, sorted: seq<Artifact>) returns (m: nat)
    ensures m <= |sorted| && InsertShot(a, sorted) == sorted[..m] + [a] + sorted[m..]
    ensures forall j | 0 <= j < m :: !Before(a, sorted[j])
    ensures m < |sorted| ==> Before(a, sorted[m])
  {
    hide Before;
    if sorted == [] || Before(a, sorted[0]) {
      m := 0;
    } else {
      var k := InsertedAt(a, sorted[1..]);
      m := k + 1;
      assert sorted[..m] == [sorted[0]] + sorted[1..][..k];
    }
  }

  lemma {:induction false} ShotPositions(files: seq<Artifact>) returns (p: seq<nat>)
    ensures Ranks(p, files) && SortedShots(files) == Pick(files, p)
  {
    hide Ranks, RanksBehind, ShotsAt, Before, InsertShot;
    p := [];
    if files == [] {
      NoShots();
    } else {
      var q := ShotPositions(files[1..]);
      RanksShifted(q, files);
      p := Shifted(q);
      if files[0].extension == Png && files[0].isPng {
        p := ShotInserted(files, p);
      }
    }
  }

  lemma ShotInserted(files: seq<Artifact>, p: seq<nat>) returns (all: seq<nat>)
    requires files != [] && files[0].extension == Png && files[0].isPng && RanksBehind(p, files)
    requires Pick(files, p) == SortedShots(files[1..])
    ensures Ranks(all, files) && SortedShots(files) == Pick(files, all)
  {
    hide Ranks, ShotsAt, Before, InsertShot, Inserted, Ahead;
    var m := InsertedAt(files[0], SortedShots(files[1..]));
    var sorted := Pick(files, p);
    assert forall j | 0 <= j < |p| :: sorted[j] == files[p[j]];
    RanksInserted(p, files, m);
    all := Inserted(p, m);
    PickInserted(files, p, m);
  }

  lemma PickInserted(files: seq<Artifact>, p: seq<nat>, m: nat)
    requires files != [] && AreInside(p, files) && m <= |p|
    ensures AreInside(Inserted(p, m), files)
    ensures Pick(files, Inserted(p, m)) == Pick(files, p)[..m] + [files[0]] + Pick(files, p)[m..]
  {
  }

  lemma NoShots()
    ensures Ranks([], [])
  {
  }

  /** The screenshots behind the first file. */
  ghost predicate RanksBehind(p: seq<nat>, files: seq<Artifact>) {
    && AreInside(p, files)
    && (forall i, j | 0 <= i < j < |p| :: Ahead(files, p[i], p[j]))
    && (forall k :: k in p <==> k > 0 && k in ShotsAt(files))
  }

  lemma RanksShifted(q: seq<nat>, files: seq<Artifact>)
    requires files != [] && Ranks(q, files[1..])
    ensures RanksBehind(Shifted(q), files)
    ensures !(files[0].extension == Png && files[0].isPng) ==> Ranks(Shifted(q), files)
    ensures Pick(files, Shifted(q)) == Pick(files[1..], q)
  {
    hide Ahead;
    var p := Shifted(q);
    forall k: nat
      ensures k in p <==> k > 0 && k in ShotsAt(files)
    {
      InShifted(q, k);
      assert k > 0 ==> (k in ShotsAt(files) <==> k - 1 in ShotsAt(files[1..]));
    }
    assert AreInside(p, files);
    forall i, j | 0 <= i < j < |p|
      ensures Ahead(files, p[i], p[j])
    {
      assert q[i] in q && q[j] in q;
      AheadBehind(files, q[i], q[j]);
    }
  }

  lemma AheadBehind(files: seq<Artifact>, i: nat, k: nat)
    requires files != [] && i < |files| - 1 && k < |files| - 1 && Ahead(files[1..], i, k)
    ensures Ahead(files, i + 1, k + 1)
  {
  }

  function Inserted(p: seq<nat>, m: nat): (all: seq<nat>)
    requires m <= |p|
    ensures |all| == |p| + 1 && forall i :: 0 <= i < |all| ==> all[i] == if i < m then p[i] else if i == m then 0 else p[i - 1]
  {
    p[..m] + [0] + p[m..]
  }

  lemma InInserted(p: seq<nat>, m: nat, k: nat)
    requires m <= |p|
    ensures k in Inserted(p, m) <==> k == 0 || k in p
  {
    assert p == p[..m] + p[m..];
  }

  /** The first file stands between the screenshots it is not before and those that it is. */
  lemma FirstIsBetween(p: seq<nat>, files: seq<Artifact>, m: nat, j: nat)
    requires files != [] && RanksBehind(p, files) && m <= |p| && j < |p|
    requires j < m ==> !Before(files[0], files[p[j]])
    requires m < |p| ==> Before(files[0], files[p[m]])
    ensures if j < m then Ahead(files, p[j], 0) else Ahead(files, 0, p[j])
  {
    assert p[j] in p;
    if j >= m {
      assert p[m] in p;
      assert j > m ==> Ahead(files, p[m], p[j]);
    }
  }

  lemma RanksInserted(p: seq<nat>, files: seq<Artifact>, m: nat)
    requires files != [] && files[0].extension == Png && files[0].isPng && RanksBehind(p, files) && m <= |p|
    requires forall j | 0 <= j < m :: !Before(files[0], files[p[j]])
    requires m < |p| ==> Before(files[0], files[p[m]])
    ensures Ranks(Inserted(p, m), files)
  {
    hide Ahead, Before;
    var all := Inserted(p, m);
    forall k: nat
      ensures k in all <==> k in ShotsAt(files)
    {
      InInserted(p, m, k);
    }
    forall j | 0 <= j < |p|
      ensures if j < m then Ahead(files, p[j], 0) else Ahead(files, 0, p[j])
    {
      FirstIsBetween(p, files, m, j);
    }
    forall i, j | 0 <= i < j < |all|
      ensures Ahead(files, all[i], all[j])
    {
      assert all[i] == if i < m then p[i] else if i == m then 0 else p[i - 1];
      assert all[j] == if j < m then p[j] else if j == m then 0 else p[j - 1];
    }
  }

  // ----- how many there are

  lemma {:induction false} DistinctCount(p: seq<nat>, s: set<nat>)
    requires forall i, j | 0 <= i < j < |p| :: p[i] != p[j]
    requires forall k :: k in p <==> k in s
    ensures |p| == |s|
    decreases |p|
  {
    if p != [] {
      var n := |p| - 1;
      assert p[n] in p;
      forall k: nat
        ensures k in p[..n] <==> k in s - {p[n]}
      {
        assert p == p[..n] + [p[n]];
      }
      DistinctCount(p[..n], s - {p[n]});
    } else {
      assert forall k | k in s :: k in p;
    }
  }

  function Least(a: nat, b: nat): nat {
    if a < b then a else b
  }

  // ----- the track

  function LogSectionPaths(t: Input): seq<string> {
    if t.log.None? then [] else [t.log.value.file + "#" + t.log.value.jsonPath]
  }

  /** The evidence of a track, over its kept files. */
  ghost predicate IsEvidence(t: Input, kept: seq<Artifact>, json: seq<nat>, logs: seq<nat>, shots: seq<nat>, e: Evidence)
    requires AreInside(json, kept) && AreInside(logs, kept) && AreInside(shots, kept)
  {
    && e.key == t.key && e.passed == t.passed && e.primaryReason == t.primaryReason
    && e.report == (if t.reportTrusted && t.report.Report? then Some(t.reportPath) else None)
    && e.trace == (if t.trace.Some? && !t.captureFails then Some(t.trace.value.file + "#" + t.trace.value.jsonPath) else None)
    && e.logs == PathsAt(kept, logs) + LogSectionPaths(t)
    && e.diagnostics == PathsAt(kept, json) + PathsAt(kept, logs) + LogSectionPaths(t)
    && |e.screenshots| == Least(3, |ShotsAt(kept)|) <= |shots|
    && forall j | 0 <= j < |e.screenshots| :: e.screenshots[j] == kept[shots[j]].path
  }

  /** The records of a track: its report, then its diagnostics, logs and all its screenshots. */
  ghost predicate AreRecords(t: Input, kept: seq<Artifact>, json: seq<nat>, logs: seq<nat>, shots: seq<nat>, files: seq<Record>)
    requires AreInside(json, kept) && AreInside(logs, kept) && AreInside(shots, kept)
  {
    files == (if t.reportTrusted && t.report.Report? then [Record(t.reportPath, t.key.Printed(), Reports, t.report.content)] else [])
             + RecordsAt(t, kept, json, SupportingEvidence) + RecordsAt(t, kept, logs, Logs) + RecordsAt(t, kept, shots, Screenshots)
  }

  /**
   Everything the manifest holds of a track: the diagnostics and the logs in the files' order,
   each once; all screenshots as records, best first, of which the first three are selected.
   */
  lemma TrackContents(t: Input) returns (json: seq<nat>, logs: seq<nat>, shots: seq<nat>)
    ensures Lists(json, JsonAt(Kept(t))) && AreInside(json, Kept(t))
    ensures Lists(logs, LogsAt(t, Kept(t))) && AreInside(logs, Kept(t))
    ensures Ranks(shots, Kept(t))
    ensures IsEvidence(t, Kept(t), json, logs, shots, TrackEvidence(t))
    ensures AreRecords(t, Kept(t), json, logs, shots, TrackFiles(t))
  {
    hide Kept, Supporting, PhysicalLogs, SortedShots, ShotsAt, JsonAt, LogsAt, Lists;
    var kept := Kept(t);
    json := JsonPositions(t, kept);
    logs := LogPositions(t, kept);
    shots := ShotPositions(kept);
    RanksCount(shots, kept);
    assert ShotRecords(t, SortedShots(kept)) == RecordsAt(t, kept, shots, Screenshots);
    var e := TrackEvidence(t);
    assert Paths(PhysicalLogs(t, kept) + LogSections(t)) == PathsAt(kept, logs) + LogSectionPaths(t);
    assert Paths(Supporting(t, kept)) == PathsAt(kept, json);
    assert e.diagnostics == PathsAt(kept, json) + PathsAt(kept, logs) + LogSectionPaths(t);
  }

  lemma RanksCount(p: seq<nat>, files: seq<Artifact>)
    requires Ranks(p, files)
    ensures |p| == |ShotsAt(files)|
  {
    hide ShotsAt;
    forall i, j | 0 <= i < j < |p|
      ensures p[i] != p[j]
    {
      assert p[i] in p && p[j] in p && Ahead(files, p[i], p[j]);
    }
    DistinctCount(p, ShotsAt(files));
  }

  /**
   The selected screenshots: as many as there are valid ones, up to three; different
   files, best first, and each of them ahead of every valid one that is left out.
   */
  ghost predicate IsSelection(files: seq<Artifact>, selected: seq<nat>, screenshots: seq<string>) {
    && AreInside(selected, files)
    && |selected| == |screenshots| == Least(3, |ShotsAt(files)|)
    && (forall i | 0 <= i < |selected| :: selected[i] in ShotsAt(files) && screenshots[i] == files[selected[i]].path)
    && (forall i, j | 0 <= i < j < |selected| :: selected[i] != selected[j] && Ahead(files, selected[i], selected[j]))
    && (forall i, k | 0 <= i < |selected| && k in ShotsAt(files) && k !in selected :: Ahead(files, selected[i], k))
  }

  lemma SelectedAreBest(t: Input) returns (selected: seq<nat>)
    ensures IsSelection(Kept(t), selected, TrackEvidence(t).screenshots)
  {
    hide Kept, TrackEvidence, TrackFiles, Lists, JsonAt, LogsAt, AreRecords, IsSelection;
    var json, logs, shots := TrackContents(t);
    selected := FirstsAreSelected(t, Kept(t), json, logs, shots, TrackEvidence(t));
  }

  lemma FirstsAreSelected(t: Input, kept: seq<Artifact>, json: seq<nat>, logs: seq<nat>, shots: seq<nat>, e: Evidence)
    returns (selected: seq<nat>)
    requires AreInside(json, kept) && AreInside(logs, kept) && Ranks(shots, kept) && IsEvidence(t, kept, json, logs, shots, e)
    ensures IsSelection(kept, selected, e.screenshots)
  {
    hide IsEvidence, ShotsAt, Ahead;
    RanksCount(shots, kept);
    ScreenshotsOf(t, kept, json, logs, shots, e);
    selected := shots[..|e.screenshots|];
    FirstsAreAhead(shots, kept, |e.screenshots|);
    assert forall i | 0 <= i < |selected| :: selected[i] == shots[i] && selected[i] in selected;
  }

  lemma ScreenshotsOf(t: Input, kept: seq<Artifact>, json: seq<nat>, logs: seq<nat>, shots: seq<nat>, e: Evidence)
    requires AreInside(json, kept) && AreInside(logs, kept) && AreInside(shots, kept) && IsEvidence(t, kept, json, logs, shots, e)
    ensures |e.screenshots| == Least(3, |ShotsAt(kept)|) <= |shots|
    ensures forall j | 0 <= j < |e.screenshots| :: e.screenshots[j] == kept[shots[j]].path
  {
  }

  lemma FirstsAreAhead(shots: seq<nat>, files: seq<Artifact>, n: nat)
    requires Ranks(shots, files) && n <= |shots|
    ensures forall k | k in shots[..n] :: k in ShotsAt(files)
    ensures forall i, j | 0 <= i < j < n :: shots[i] != shots[j] && Ahead(files, shots[i], shots[j])
    ensures forall i, k | 0 <= i < n && k in ShotsAt(files) && k !in shots[..n] :: Ahead(files, shots[i], k)
  {
    assert forall k | k in shots[..n] :: k in shots;
    assert forall j | 0 <= j < n :: shots[..n][j] == shots[j] && shots[j] in shots[..n];
    forall i, k | 0 <= i < n && k in ShotsAt(files) && k !in shots[..n]
      ensures Ahead(files, shots[i], k)
    {
      var j :| 0 <= j < |shots| && shots[j] == k;
    }
  }

  // ----- failures, totals and joins

  /** A track fails exactly when its report or tree is not to be had, a file is not acceptable, or one changed during the capture. */
  lemma TrackFailsUnless(t: Input)
    ensures TrackFailures(t) == [] <==>
              && t.reportTrusted && t.report.Report? && t.artifactsTrusted && !t.tree.BadTree? && !t.captureFails
              && (t.tree.Files? ==> forall a | a in t.tree.files :: IsAcceptable(t, a))
  {
    hide Refusal, IsAcceptable, Refusals;
    RefusedOrAccepted(t, TreeFiles(t));
    forall a: Artifact
      ensures Refusal(t, a).None? <==> IsAcceptable(t, a)
    {
      RefusedUnlessAcceptable(t, a);
    }
    assert t.captureFails ==> TrackFailures(t)[|TrackFailures(t)| - 1].reason == ChangedDuringCapture;
  }

  ghost function KindAt(records: seq<Record>, kind: Kind): set<nat> {
    set k: nat | k < |records| && records[k].kind == kind
  }

  lemma {:induction false} CountIsCardinality(records: seq<Record>, kind: Kind)
    ensures CountOf(records, kind) == |KindAt(records, kind)|
    decreases |records|
  {
    if records != [] {
      var n := |records| - 1;
      CountIsCardinality(records[..n], kind);
      assert KindAt(records, kind) == KindAt(records[..n], kind) + if records[n].kind == kind then {n} else {};
    } else {
      assert KindAt(records, kind) == {};
    }
  }

  /** The totals of a manifest are the numbers of records of each kind; logs may be files or sections. */
  lemma TotalsAreCardinalities(inputs: seq<Input>)
    ensures var m := ManifestOf(inputs);
            && m.totals.tracks == |m.tracks|
            && m.totals.reports == |KindAt(m.files, Reports)|
            && m.totals.machineRuntimeTrace == |KindAt(m.sections, MachineRuntimeTrace)|
            && m.totals.logs == |KindAt(m.files, Logs)| + |KindAt(m.sections, Logs)|
            && m.totals.screenshots == |KindAt(m.files, Screenshots)|
  {
    hide DraftOf, OverLimit, Total, KindAt, CountOf;
    var m := ManifestOf(inputs);
    CountIsCardinality(m.files, Reports);
    CountIsCardinality(m.sections, MachineRuntimeTrace);
    CountIsCardinality(m.files, Logs);
    CountIsCardinality(m.sections, Logs);
    CountIsCardinality(m.files, Screenshots);
  }

  lemma {:induction false} TotalAppend(a: seq<Record>, b: seq<Record>)
    ensures Total(a + b) == Total(a) + Total(b)
    decreases |b|
  {
    if b == [] {
      assert a + b == a;
    } else {
      var n := |b| - 1;
      TotalAppend(a, b[..n]);
      assert (a + b)[..|a + b| - 1] == a + b[..n];
    }
  }

  /** The manifest of two lists of tracks holds what those of each hold, one behind the other; the byte totals add. */
  lemma {:induction false} ManifestsJoin(a: seq<Input>, b: seq<Input>)
    ensures var both, left, right := ManifestOf(a + b), ManifestOf(a), ManifestOf(b);
            && both.tracks == left.tracks + right.tracks
            && both.files == left.files + right.files && both.sections == left.sections + right.sections
            && both.totals.byteLength == left.totals.byteLength + right.totals.byteLength
  {
    hide DraftOf, OverLimit, CountOf, Total;
    DraftsJoin(a, b);
    TotalAppend(DraftOf(a).files, DraftOf(b).files);
  }

  /** One draft holds what two others hold, one behind the other. */
  predicate IsJoined(both: Draft, left: Draft, right: Draft) {
    both.tracks == left.tracks + right.tracks && both.files == left.files + right.files && both.sections == left.sections + right.sections
  }

  lemma JoinedAdd(both: Draft, left: Draft, right: Draft, t: Input)
    requires IsJoined(both, left, right)
    ensures IsJoined(Add(both, t), left, Add(right, t))
  {
    hide TrackEvidence, TrackFiles, TrackSections, TrackFailures, Key.IsAbsent;
    Behind(left.tracks, right.tracks, [TrackEvidence(t)]);
    Behind(left.files, right.files, TrackFiles(t));
    Behind(left.sections, right.sections, TrackSections(t));
  }

  lemma Behind<T>(a: seq<T>, b: seq<T>, c: seq<T>)
    ensures (a + b) + c == a + (b + c)
  {
  }

  lemma DraftSnoc(inputs: seq<Input>, t: Input)
    ensures DraftOf(inputs + [t]) == Add(DraftOf(inputs), t)
  {
    hide Add;
    assert (inputs + [t])[..|inputs|] == inputs;
  }

  lemma {:induction false} DraftsJoin(a: seq<Input>, b: seq<Input>)
    ensures IsJoined(DraftOf(a + b), DraftOf(a), DraftOf(b))
    decreases |b|
  {
    hide Add;
    if b == [] {
      assert a + b == a;
    } else {
      hide DraftOf;
      var n := |b| - 1;
      DraftsJoin(a, b[..n]);
      assert a + b == (a + b[..n]) + [b[n]] && b == b[..n] + [b[n]];
      DraftSnoc(a + b[..n], b[n]);
      DraftSnoc(b[..n], b[n]);
      JoinedAdd(DraftOf(a + b[..n]), DraftOf(a), DraftOf(b[..n]), b[n]);
    }
  }

  /** A manifest of one track holds its evidence and its records, and the bytes of its files. */
  lemma OneTrack(t: Input)
    requires !t.key.IsAbsent()
    ensures ManifestOf([t]).tracks == [TrackEvidence(t)] && ManifestOf([t]).files == TrackFiles(t)
    ensures ManifestOf([t]).sections == TrackSections(t) && ManifestOf([t]).totals.byteLength == Total(TrackFiles(t))
  {
    hide TrackEvidence, TrackFiles, TrackSections, TrackFailures, OverLimit, CountOf, Total;
    assert [t][..0] == [];
    assert DraftOf([]) == Draft([], [], [], []) && DraftOf([t]) == Add(DraftOf([]), t);
    assert [] + [TrackEvidence(t)] == [TrackEvidence(t)] && [] + TrackFiles(t) == TrackFiles(t) && [] + TrackSections(t) == TrackSections(t);
  }

  // ----- what the validator's consent is worth

  /** The paths a track's evidence is judged by. */
  predicate Names(e: Evidence, path: string) {
    || e.report == Some(path)
    || (e.passed && (e.trace == Some(path) || path in e.logs || path in e.screenshots))
    || (!e.passed && path in e.diagnostics)
  }

  /** A record of the track at that path, with a digest, and no larger than its kind may be. */
  predicate Backs(r: Record, track: string, path: string) {
    && r.track == track && r.path == path && IsDigest(r.content.sha256)
    && r.content.byteLength <= (match r.kind
                                case Logs => 4194304
                                case MachineRuntimeTrace => 524288
                                case _ => 2097152)
  }

  lemma RecordBacks(m: Manifest, r: Record)
    requires Passes(m) && r in m.files + m.sections
    ensures Backs(r, r.track, r.path)
  {
    hide IsDigest, EvidencePasses, Total;
    assert WithinLimit(r);
    if r in m.files {
      assert ValidFile(r);
    } else {
      assert ValidSection(r);
    }
  }

  /**
   In a manifest without failures every path that a track is judged by is backed by a record of that
   track; a passed track has a report and at most three screenshots, a failed one a reason that is
   not blank; and the files together are at most 32 MiB.
   */
  lemma PassingManifestIsBacked(m: Manifest, e: Evidence)
    requires Passes(m) && e in m.tracks
    ensures e.key.Named?
    ensures forall path | Names(e, path) :: exists r :: r in m.files + m.sections && Backs(r, e.key.name, path)
    ensures if e.passed then e.report.Some? && |e.screenshots| <= 3
            else e.primaryReason.Some? && exists c :: c in e.primaryReason.value && !IsSpace(c)
    ensures m.totals.byteLength == Total(m.files) <= 33554432
  {
    hide IsDigest, Total, IsSpace, Backs;
    assert EvidencePasses(e, m.files + m.sections);
    forall path | Names(e, path)
      ensures exists r :: r in m.files + m.sections && Backs(r, e.key.name, path)
    {
      assert OwnsAny(m.files + m.sections, e.key.name, path);
      var r :| r in m.files + m.sections && r.track == e.key.name && r.path == path;
      RecordBacks(m, r);
    }
  }
}
