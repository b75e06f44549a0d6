/**
 What `runOwnedCommand` comes to, told from the events alone: which text it returns, or which
 error it throws, by the overflow, the deadline, the first exit and the probes.
 */
module ProcessOutcome {
  import opened Bytes
  import opened OwnedProcess
  import opened Wrappers

  lemma RunSnoc(cfg: Config, s: State, events: seq<Event>, e: Event)
    ensures Run(cfg, s, events + [e]) == Step(cfg, Run(cfg, s, events), e)
  {
    hide Run, Step;
    RunCompose(cfg, s, events, [e]);
    assert [e] == [e] + [];
    RunOne(cfg, Run(cfg, s, events), e, []);
    RunNone(cfg, Step(cfg, Run(cfg, s, events), e));
  }

  // ----- overflow

  /** How many bytes the events deliver on a stream. */
  function BytesOn(stream: Stream, events: seq<Event>): nat {
    if events == [] then 0
    else
      var last := events[|events| - 1];
      BytesOn(stream, events[..|events| - 1]) + if last.Chunk? && last.stream == stream then |last.bytes| else 0
  }

  /** More bytes than the bound on one of the streams. */
  predicate Overflows(cfg: Config, events: seq<Event>) {
    BytesOn(Stdout, events) > cfg.maximumOutputBytes || BytesOn(Stderr, events) > cfg.maximumOutputBytes
  }

  lemma OneMore(events: seq<Event>, e: Event)
    ensures (events + [e])[..|events|] == events
    ensures forall stream :: BytesOn(stream, events + [e]) ==
              BytesOn(stream, events) + if e.Chunk? && e.stream == stream then |e.bytes| else 0
  {
    assert (events + [e])[..|events|] == events;
  }

  lemma {:induction false} OverflowIsExceeded(cfg: Config, events: seq<Event>)
    ensures var o := Run(cfg, INITIAL, events).output;
            && (o.exceeded <==> Overflows(cfg, events))
            && (!o.exceeded ==> o.stdoutSize == BytesOn(Stdout, events) && o.stderrSize == BytesOn(Stderr, events))
    decreases |events|
  {
    hide Run;
    if events == [] {
      RunNone(cfg, INITIAL);
    } else {
      var n := |events| - 1;
      assert events == events[..n] + [events[n]];
      OverflowIsExceeded(cfg, events[..n]);
      RunSnoc(cfg, INITIAL, events[..n], events[n]);
    }
  }

  // ----- the first exit and the deadline

  /** The first exit or error of the child. */
  function FirstExit(events: seq<Event>): Option<Exit> {
    if events == [] then None
    else
      match events[0]
      case ChildError => Some(ExitError)
      case ChildExit(status) => Some(Exited(status))
      case _ => FirstExit(events[1..])
  }

  lemma {:induction false} ExitIsFirst(cfg: Config, s: State, events: seq<Event>)
    ensures Run(cfg, s, events).exit == if s.exit.Some? then s.exit else FirstExit(events)
    decreases |events|
  {
    if events != [] {
      ExitIsFirst(cfg, Step(cfg, s, events[0]), events[1..]);
    }
  }

  /** The timer was cleared: somebody asked for the termination, or the output overflowed. */
  predicate Stopped(cfg: Config, events: seq<Event>) {
    Terminate in events || Overflows(cfg, events)
  }

  /** The deadline came up with the timer still running. */
  predicate Fired(cfg: Config, events: seq<Event>) {
    exists d :: 0 <= d < |events| && events[d] == Deadline && !Stopped(cfg, events[..d])
  }

  /** The waiter has not been resumed behind the exit. */
  predicate Undecided(events: seq<Event>) {
    forall i | 0 <= i < |events| && events[i].Resume? :: FirstExit(events[..i]).None?
  }

  lemma FiredSnoc(cfg: Config, events: seq<Event>, e: Event)
    ensures Fired(cfg, events + [e]) <==> Fired(cfg, events) || (e == Deadline && !Stopped(cfg, events))
    ensures Stopped(cfg, events) ==> Stopped(cfg, events + [e])
  {
    hide Overflows, BytesOn;
    var more := events + [e];
    assert more[..|events|] == events && more[|events|] == e;
    assert forall d | 0 <= d < |events| :: more[..d] == events[..d] && more[d] == events[d];
    OverflowGrows(cfg, events, e);
  }

  lemma OverflowGrows(cfg: Config, events: seq<Event>, e: Event)
    ensures Overflows(cfg, events) ==> Overflows(cfg, events + [e])
    ensures !e.Chunk? ==> (Overflows(cfg, events) <==> Overflows(cfg, events + [e]))
  {
    OneMore(events, e);
  }

  lemma UndecidedPrefix(events: seq<Event>, n: nat)
    requires Undecided(events) && n < |events|
    ensures Undecided(events[..n])
    ensures events[n].Resume? ==> FirstExit(events[..n]).None?
  {
    assert forall i | 0 <= i < n :: events[..n][..i] == events[..i];
  }

  /** Until the waiter is resumed behind the exit, it waits, and the timer tells of the deadline. */
  lemma {:induction false} DeadlineIsFired(cfg: Config, events: seq<Event>)
    requires Undecided(events)
    ensures var s := Run(cfg, INITIAL, events);
            && s.waiter == Waiting && s.result == Running
            && (s.group.deadlineExceeded <==> Fired(cfg, events))
            && (s.group.timerActive <==> !Stopped(cfg, events) && !Fired(cfg, events))
    decreases |events|
  {
    hide Run, Undecided, Fired, Stopped, Step;
    if events == [] {
      RunNone(cfg, INITIAL);
      NothingFired(cfg);
    } else {
      var n := |events| - 1;
      var before, e := events[..n], events[n];
      assert events == before + [e];
      UndecidedPrefix(events, n);
      DeadlineIsFired(cfg, before);
      RunSnoc(cfg, INITIAL, before, e);
      FiredSnoc(cfg, before, e);
      ExitIsFirst(cfg, INITIAL, before);
      OverflowIsExceeded(cfg, before);
      OverflowIsExceeded(cfg, events);
      TimerStep(cfg, before, e, Run(cfg, INITIAL, before));
    }
  }

  lemma NothingFired(cfg: Config)
    ensures !Fired(cfg, []) && !Stopped(cfg, [])
  {
  }

  lemma TimerStep(cfg: Config, events: seq<Event>, e: Event, s: State)
    requires s.waiter == Waiting && s.result == Running && (e.Resume? ==> s.exit.None?)
    requires s.output.exceeded == Overflows(cfg, events) && Step(cfg, s, e).output.exceeded == Overflows(cfg, events + [e])
    ensures var g, t := s.group, Step(cfg, s, e);
            && t.waiter == Waiting && t.result == Running
            && (t.group.deadlineExceeded <==> g.deadlineExceeded || (e == Deadline && g.timerActive))
            && ((g.timerActive ==> !Stopped(cfg, events)) ==>
                  (t.group.timerActive <==> g.timerActive && e != Deadline && !Stopped(cfg, events + [e])))
  {
    hide BytesOn, Collected, Overflows;
    OverflowGrows(cfg, events, e);
  }

  // ----- the decision

  /** Where the waiter stands when it is first resumed behind the exit. */
  function Decision(cfg: Config, fired: bool, exit: Exit, probe: Probe): Waiter {
    if fired then if cfg.hasPid then Terminating(DeadlineExceeded) else Rejected(DeadlineExceeded)
    else if exit == ExitError then Rejected(SpawnFailed)
    else if !cfg.hasPid || probe == Gone then Resolved(exit.status)
    else if probe == ProbeFailed then Rejected(ProbeError)
    else Terminating(DescendantsLeft)
  }

  lemma ResumedIsDecided(cfg: Config, early: seq<Event>, probe: Probe)
    requires Undecided(early) && FirstExit(early).Some?
    ensures Run(cfg, INITIAL, early + [Resume(probe)]).waiter == Decision(cfg, Fired(cfg, early), FirstExit(early).value, probe)
  {
    hide Run, Undecided, Fired, Stopped, FirstExit;
    DeadlineIsFired(cfg, early);
    ExitIsFirst(cfg, INITIAL, early);
    RunSnoc(cfg, INITIAL, early, Resume(probe));
  }

  /** From there on: it stands, or a termination that it awaits ends. */
  predicate IsOutcome(w: Waiter, phase: Phase, now: Waiter) {
    if !w.Terminating? then now == w
    else
      || now == w
      || (now == Rejected(w.reason) && phase == GroupGone)
      || (now == Rejected(GroupRemained) && phase == RemainedAlive)
      || (now == Rejected(ProbeError) && phase == SignalFailed)
  }

  lemma OutcomeStep(cfg: Config, w: Waiter, s: State, e: Event)
    requires IsOutcome(w, s.group.phase, s.waiter) && (w.Terminating? || w.Settled())
    ensures IsOutcome(w, Step(cfg, s, e).group.phase, Step(cfg, s, e).waiter)
  {
  }

  lemma {:induction false} OutcomeStays(cfg: Config, w: Waiter, s: State, events: seq<Event>)
    requires IsOutcome(w, s.group.phase, s.waiter) && (w.Terminating? || w.Settled())
    ensures IsOutcome(w, Run(cfg, s, events).group.phase, Run(cfg, s, events).waiter)
    decreases |events|
  {
    hide Step, IsOutcome;
    if events != [] {
      OutcomeStep(cfg, w, s, events[0]);
      OutcomeStays(cfg, w, Step(cfg, s, events[0]), events[1..]);
    }
  }

  /** The error behind a termination: the reason for it, unless the group outlived it or could not be signalled. */
  function ErrorBehind(reason: Failure, phase: Phase): Failure {
    match phase
    case RemainedAlive => GroupRemained
    case SignalFailed => ProbeError
    case _ => reason
  }

  /**
   What the command comes to, from the events: `early` up to the first resumption of the waiter
   behind the exit, whose probe is `probe`, then `late` up to the conclusion.
   */
  predicate ComesTo(cfg: Config, early: seq<Event>, probe: Probe, late: seq<Event>, phase: Phase, r: Result)
    requires FirstExit(early).Some?
  {
    var events, exit := early + [Resume(probe)] + late, FirstExit(early).value;
    if BytesOn(Stdout, events) > cfg.maximumOutputBytes || BytesOn(Stderr, events) > cfg.maximumOutputBytes then r == Threw(OutputExceeded)
    else if Fired(cfg, early) then r == Threw(if cfg.hasPid then ErrorBehind(DeadlineExceeded, phase) else DeadlineExceeded)
    else if exit == ExitError then r == Threw(SpawnFailed)
    else if cfg.hasPid && probe == Exists then r == Threw(ErrorBehind(DescendantsLeft, phase))
    else if cfg.hasPid && probe == ProbeFailed then r == Threw(ProbeError)
    else if exit.status != 0 then r == Threw(CommandFailed(exit.status))
    else r == Returned(Written(events))
  }

  lemma ConclusionComesTo(cfg: Config, early: seq<Event>, probe: Probe, late: seq<Event>)
    requires Undecided(early) && FirstExit(early).Some?
    requires var s := Run(cfg, INITIAL, early + [Resume(probe)] + late);
             s.result.Running? && !Step(cfg, s, Conclude).result.Running?
    ensures var s := Run(cfg, INITIAL, early + [Resume(probe)] + late);
            ComesTo(cfg, early, probe, late, s.group.phase, Step(cfg, s, Conclude).result)
  {
    hide Run, Undecided, Fired, Stopped, FirstExit, Inv, Written, BytesOn, Concat;
    var events := early + [Resume(probe)] + late;
    var s := Run(cfg, INITIAL, events);
    var t := Run(cfg, INITIAL, early + [Resume(probe)]);
    var w := Decision(cfg, Fired(cfg, early), FirstExit(early).value, probe);
    ResumedIsDecided(cfg, early, probe);
    RunCompose(cfg, INITIAL, early + [Resume(probe)], late);
    OutcomeStays(cfg, w, t, late);
    OverflowIsExceeded(cfg, events);
    ReachableInv(cfg, events);
    if Step(cfg, s, Conclude).result.Returned? {
      StepReturns(cfg, s, Conclude);
      DeliveredIsWritten(cfg, INITIAL, events);
      NothingConcat();
      assert [] + Written(events) == Written(events);
    }
  }

  /** The first resumption behind the exit, if there is one. */
  lemma {:induction false} FirstDecision(events: seq<Event>) returns (r: nat)
    requires !Undecided(events)
    ensures r < |events| && events[r].Resume? && FirstExit(events[..r]).Some? && Undecided(events[..r])
    decreases |events|
  {
    var n := |events| - 1;
    hide FirstExit;
    assert forall i | 0 <= i <= n :: events[..n][..i] == events[..i];
    if Undecided(events[..n]) {
      r := n;
    } else {
      r := FirstDecision(events[..n]);
    }
  }

  lemma {:induction false} WhereItConcluded(cfg: Config, events: seq<Event>) returns (k: nat)
    requires !Run(cfg, INITIAL, events).result.Running?
    ensures k < |events| && events[k] == Conclude && Run(cfg, INITIAL, events[..k]).result.Running?
    ensures Step(cfg, Run(cfg, INITIAL, events[..k]), Conclude).result == Run(cfg, INITIAL, events).result
    decreases |events|
  {
    hide Step, Run;
    if events == [] {
      RunNone(cfg, INITIAL);
    }
    var n := |events| - 1;
    var s := Run(cfg, INITIAL, events[..n]);
    assert events == events[..n] + [events[n]];
    RunSnoc(cfg, INITIAL, events[..n], events[n]);
    StepIsLater(cfg, s, events[n]);
    if s.result.Running? {
      OnlyConcludeEnds(cfg, s, events[n]);
      k := n;
    } else {
      k := WhereItConcluded(cfg, events[..n]);
      assert events[..n][..k] == events[..k];
    }
  }

  lemma OnlyConcludeEnds(cfg: Config, s: State, e: Event)
    requires s.result.Running? && !Step(cfg, s, e).result.Running?
    ensures e == Conclude && s.waiter.Settled()
  {
  }

  /**
   Every result of every run: it came at one conclusion, behind the first resumption of the
   waiter behind the exit, and it is what the events up to there say.
   */
  lemma EveryResultComes(cfg: Config, events: seq<Event>) returns (r: nat, probe: Probe, k: nat)
    requires !Run(cfg, INITIAL, events).result.Running?
    ensures r < k < |events| && events[r] == Resume(probe) && events[k] == Conclude && FirstExit(events[..r]).Some?
    ensures ComesTo(cfg, events[..r], probe, events[r + 1..k], Run(cfg, INITIAL, events[..k]).group.phase, Run(cfg, INITIAL, events).result)
  {
    hide Run, Step, ComesTo, FirstExit, Undecided;
    k := WhereItConcluded(cfg, events);
    OnlyConcludeEnds(cfg, Run(cfg, INITIAL, events[..k]), Conclude);
    if Undecided(events[..k]) {
      DeadlineIsFired(cfg, events[..k]);
    }
    r := FirstDecision(events[..k]);
    probe := events[r].probe;
    assert events[..k][..r] == events[..r];
    assert events[..r] + [Resume(probe)] + events[r + 1..k] == events[..k];
    ConclusionComesTo(cfg, events[..r], probe, events[r + 1..k]);
  }

  lemma NothingConcat()
    ensures Concat(INITIAL.output.delivered) == []
  {
  }

  // ----- what the phases of the termination rest on

  predicate IsPolled(events: seq<Event>, probe: Probe) {
    exists i :: 0 <= i < |events| && events[i].Poll? && events[i].probe == probe
  }

  /** The end of a grace period at which the group still existed. */
  predicate OutlivesAt(events: seq<Event>, i: nat) {
    i < |events| && events[i] == Poll(Exists, true)
  }

  predicate MayStart(e: Event) {
    e.Terminate? || e.Deadline? || e.Chunk? || e.Resume?
  }

  /** What must have happened for the group to be where it is. */
  ghost predicate Supports(events: seq<Event>, g: Group) {
    && (g.phase != NotStarted ==> exists i :: 0 <= i < |events| && MayStart(events[i]))
    && (g.phase == GroupGone ==> IsPolled(events, Gone))
    && (g.phase == SignalFailed ==> IsPolled(events, ProbeFailed))
    && (g.kills > 0 ==> exists i :: OutlivesAt(events, i))
    && (g.phase == RemainedAlive ==> exists i, j :: i < j && OutlivesAt(events, i) && OutlivesAt(events, j))
    && (g.seenGone ==> exists e :: e in events && (e == Resume(Gone) || (e.Poll? && e.probe == Gone)))
  }

  lemma SupportsMore(events: seq<Event>, g: Group, e: Event)
    requires Supports(events, g)
    ensures Supports(events + [e], g)
  {
    var more := events + [e];
    assert forall i | 0 <= i < |events| :: more[i] == events[i];
    assert forall i | OutlivesAt(events, i) :: OutlivesAt(more, i);
    if g.phase != NotStarted {
      var i :| 0 <= i < |events| && MayStart(events[i]);
      assert MayStart(more[i]);
    }
  }

  lemma SupportsStep(cfg: Config, events: seq<Event>, s: State, e: Event)
    requires Inv(cfg, s) && Supports(events, s.group)
    ensures Supports(events + [e], Step(cfg, s, e).group)
  {
    hide OutputInv, WaiterInv, ResultInv, Supports;
    var more, g, t := events + [e], s.group, Step(cfg, s, e).group;
    SupportsMore(events, g, e);
    assert more[|events|] == e;
    if t != g {
      SupportsChange(cfg, events, s, e);
    }
  }

  lemma SupportsChange(cfg: Config, events: seq<Event>, s: State, e: Event)
    requires Inv(cfg, s) && Supports(events, s.group) && Supports(events + [e], s.group)
    ensures Supports(events + [e], Step(cfg, s, e).group)
  {
    hide OutputInv, WaiterInv, ResultInv, Collected;
    var more, g, t := events + [e], s.group, Step(cfg, s, e).group;
    assert more[|events|] == e && e in more;
    assert t.phase != g.phase && g.phase == NotStarted ==> MayStart(more[|events|]);
    assert e == Poll(Exists, true) ==> OutlivesAt(more, |events|);
    if t.phase == RemainedAlive && g.phase != RemainedAlive {
      var i :| OutlivesAt(events, i);
      assert OutlivesAt(more, i);
    }
  }

  lemma {:induction false} PhasesAreSupported(cfg: Config, events: seq<Event>)
    ensures Supports(events, Run(cfg, INITIAL, events).group)
    decreases |events|
  {
    hide Run, Step, Inv;
    if events == [] {
      RunNone(cfg, INITIAL);
    } else {
      var n := |events| - 1;
      assert events == events[..n] + [events[n]];
      PhasesAreSupported(cfg, events[..n]);
      ReachableInv(cfg, events[..n]);
      RunSnoc(cfg, INITIAL, events[..n], events[n]);
      SupportsStep(cfg, events[..n], Run(cfg, INITIAL, events[..n]), events[n]);
    }
  }
}
