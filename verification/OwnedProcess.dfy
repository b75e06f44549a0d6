/**
 The owned-process protocol of scripts/lib/owned-process.ts: a deadline timer, at most one
 group termination, bounded output collectors, and a waiter, over every interleaving of the
 events that drive them. Signals, probes and timers are events; their results are inputs.
 */
module OwnedProcess {
  import opened Bytes
  import opened Wrappers

  /** What `process.kill(-pid, 0)` tells: the group exists, is gone, or the probe itself failed. */
  datatype Probe = Exists | Gone | ProbeFailed

  datatype Exit = ExitError | Exited(status: int)

  /** `terminateProcessGroup`: SIGTERM, a grace period, SIGKILL, a grace period. */
  datatype Phase = NotStarted | AfterTerm | AfterKill | GroupGone | RemainedAlive | SignalFailed

  datatype Failure = DeadlineExceeded | SpawnFailed | DescendantsLeft | GroupRemained | ProbeError | OutputExceeded | CommandFailed(status: int)

  /** `wait`: before the exit, in `await terminate()` with the error to throw after it, or settled. */
  datatype Waiter = Waiting | Terminating(reason: Failure) | Resolved(status: int) | Rejected(error: Failure) {
    predicate Settled() {
      Resolved? || Rejected?
    }
  }

  /** `runOwnedCommand`; the text is the returned bytes before UTF-8 decoding and trimming. */
  datatype Result = Running | Returned(text: Buffer) | Threw(error: Failure)

  /** What is fixed at the start: whether the spawn gave a pid, and the output bound. */
  datatype Config = Config(hasPid: bool, maximumOutputBytes: nat)

  /** The timer and the group; the last three are what an outside observer would have recorded. */
  datatype Group = Group(timerActive: bool, deadlineExceeded: bool, phase: Phase, starts: nat, kills: nat, seenGone: bool)

  /** The collectors; `delivered` is all standard output the child's stream has handed over. */
  datatype Output = Output(stdout: seq<Buffer>, stderr: seq<Buffer>, stdoutSize: nat, stderrSize: nat, exceeded: bool, delivered: seq<Buffer>)

  datatype State = State(exit: Option<Exit>, group: Group, output: Output, waiter: Waiter, result: Result)

  const INITIAL := State(None, Group(true, false, NotStarted, 0, 0, false), Output([], [], 0, 0, false, []), Waiting, Running)

  datatype Stream = Stdout | Stderr

  datatype Event =
    | ChildError
    | ChildExit(status: int)
    | Deadline
    | Chunk(stream: Stream, bytes: Buffer)
    | Closed(stream: Stream)
    | Terminate
    | Poll(probe: Probe, graceOver: bool)
    | Resume(probe: Probe)
    | Conclude

  // ----- the transition function

  /** `terminate()`: clears the timer, and starts the group termination unless it was started. */
  function Terminated(cfg: Config, g: Group): Group {
    if cfg.hasPid && g.phase == NotStarted then g.(timerActive := false, phase := AfterTerm, starts := g.starts + 1)
    else g.(timerActive := false)
  }

  function Expired(cfg: Config, g: Group): Group {
    if g.timerActive then Terminated(cfg, g.(deadlineExceeded := true)) else g
  }

  /** A data callback, up to the call of `terminate`. */
  function Collected(cfg: Config, o: Output, stream: Stream, bytes: Buffer): Output {
    var delivered := if stream.Stdout? then o.delivered + [bytes] else o.delivered;
    if o.exceeded then o.(delivered := delivered)
    else
      var stdoutSize := o.stdoutSize + if stream.Stdout? then |bytes| else 0;
      var stderrSize := o.stderrSize + if stream.Stderr? then |bytes| else 0;
      if stdoutSize > cfg.maximumOutputBytes || stderrSize > cfg.maximumOutputBytes then
        Output(o.stdout, o.stderr, stdoutSize, stderrSize, true, delivered)
      else
        Output(if stream.Stdout? then o.stdout + [bytes] else o.stdout,
               if stream.Stderr? then o.stderr + [bytes] else o.stderr,
               stdoutSize, stderrSize, false, delivered)
  }

  function Polled(g: Group, probe: Probe, graceOver: bool): Group {
    if g.phase != AfterTerm && g.phase != AfterKill then g
    else if probe.Gone? then g.(phase := GroupGone, seenGone := true)
    else if probe.ProbeFailed? then g.(phase := SignalFailed)
    else if !graceOver then g
    else if g.phase == AfterTerm then g.(phase := AfterKill, kills := g.kills + 1)
    else g.(phase := RemainedAlive)
  }

  /** The waiter's continuation after the exit. Without a pid there is no termination to await. */
  function AfterExit(cfg: Config, s: State, probe: Probe): State
    requires s.exit.Some?
  {
    var g := s.group.(timerActive := false);
    if g.deadlineExceeded then
      s.(group := Terminated(cfg, g), waiter := if cfg.hasPid then Terminating(DeadlineExceeded) else Rejected(DeadlineExceeded))
    else if s.exit.value.ExitError? then s.(group := g, waiter := Rejected(SpawnFailed))
    else if !cfg.hasPid then s.(group := g, waiter := Resolved(s.exit.value.status))
    else match probe
      case Exists => s.(group := Terminated(cfg, g), waiter := Terminating(DescendantsLeft))
      case ProbeFailed => s.(group := g, waiter := Rejected(ProbeError))
      case Gone => s.(group := g.(seenGone := true), waiter := Resolved(s.exit.value.status))
  }

  /** The waiter's continuation after the termination it awaits. */
  function AfterTermination(g: Group, w: Waiter): Waiter
    requires w.Terminating?
  {
    match g.phase
    case GroupGone => Rejected(w.reason)
    case RemainedAlive => Rejected(GroupRemained)
    case SignalFailed => Rejected(ProbeError)
    case _ => w
  }

  function Resumed(cfg: Config, s: State, probe: Probe): State {
    match s.waiter
    case Waiting => if s.exit.Some? then AfterExit(cfg, s, probe) else s
    case Terminating(_) => s.(waiter := AfterTermination(s.group, s.waiter))
    case _ => s
  }

  function Concluded(o: Output, w: Waiter, r: Result): Result {
    if !r.Running? then r
    else
      match w
      case Resolved(status) =>
        if o.exceeded then Threw(OutputExceeded)
        else if status != 0 then Threw(CommandFailed(status))
        else Returned(Concat(o.stdout))
      case Rejected(error) => Threw(if o.exceeded then OutputExceeded else error)
      case _ => r
  }

  /** One event. An event that cannot happen in `s` changes nothing. */
  function Step(cfg: Config, s: State, e: Event): State {
    match e
    case ChildError => if s.exit.None? then s.(exit := Some(ExitError)) else s
    case ChildExit(status) => if s.exit.None? then s.(exit := Some(Exited(status))) else s
    case Deadline => s.(group := Expired(cfg, s.group))
    case Chunk(stream, bytes) =>
      var o := Collected(cfg, s.output, stream, bytes);
      s.(output := o, group := if o.exceeded && !s.output.exceeded then Terminated(cfg, s.group) else s.group)
    case Closed(_) => s
    case Terminate => s.(group := Terminated(cfg, s.group))
    case Poll(probe, graceOver) => s.(group := Polled(s.group, probe, graceOver))
    case Resume(probe) => Resumed(cfg, s, probe)
    case Conclude => s.(result := Concluded(s.output, s.waiter, s.result))
  }

  function Run(cfg: Config, s: State, events: seq<Event>): State
    decreases |events|
  {
    if events == [] then s else Run(cfg, Step(cfg, s, events[0]), events[1..])
  }

  // ----- the closures

  /** `startOwnedProcess` and the variables its closures share. */
  class ProcessOwner {
    const cfg: Config
    var exit: Option<Exit>
    var timerActive: bool
    var deadlineExceeded: bool
    var phase: Phase
    var waiter: Waiter
    ghost var starts: nat
    ghost var kills: nat
    ghost var seenGone: bool

    ghost function GroupView(): Group
      reads this
    {
      Group(timerActive, deadlineExceeded, phase, starts, kills, seenGone)
    }

    constructor (cfg: Config)
      ensures GroupView() == INITIAL.group && exit == INITIAL.exit && waiter == INITIAL.waiter && this.cfg == cfg
    {
      this.cfg := cfg;
      exit, timerActive, deadlineExceeded, phase, waiter := None, true, false, NotStarted, Waiting;
      starts, kills, seenGone := 0, 0, false;
    }

    method TerminateGroup()
      modifies `timerActive, `phase, `starts
      ensures GroupView() == Terminated(cfg, old(GroupView()))
    {
      timerActive := false;
      if !cfg.hasPid {
        return;
      }
      if phase == NotStarted {
        phase := AfterTerm;
        starts := starts + 1;
      }
    }

    method OnDeadline()
      modifies `timerActive, `phase, `starts, `deadlineExceeded
      ensures GroupView() == Expired(cfg, old(GroupView()))
    {
      if timerActive {
        deadlineExceeded := true;
        TerminateGroup();
      }
    }

    method OnPoll(probe: Probe, graceOver: bool)
      modifies `phase, `kills, `seenGone
      ensures GroupView() == Polled(old(GroupView()), probe, graceOver)
    {
      if phase != AfterTerm && phase != AfterKill {
        return;
      }
      match probe
      case Gone =>
        phase := GroupGone;
        seenGone := true;
      case ProbeFailed =>
        phase := SignalFailed;
      case Exists =>
        if graceOver {
          if phase == AfterTerm {
            phase := AfterKill;
            kills := kills + 1;
          } else {
            phase := RemainedAlive;
          }
        }
    }

    method ResumeWait(probe: Probe, ghost output: Output, ghost result: Result)
      modifies `timerActive, `phase, `starts, `waiter, `seenGone
      ensures State(exit, GroupView(), output, waiter, result)
           == Resumed(cfg, State(exit, old(GroupView()), output, old(waiter), result), probe)
    {
      if waiter == Waiting && exit.Some? {
        timerActive := false;
        if deadlineExceeded {
          TerminateGroup();
          waiter := if cfg.hasPid then Terminating(DeadlineExceeded) else Rejected(DeadlineExceeded);
        } else if exit.value == ExitError {
          waiter := Rejected(SpawnFailed);
        } else if cfg.hasPid && probe == ProbeFailed {
          waiter := Rejected(ProbeError);
        } else if cfg.hasPid && probe == Exists {
          TerminateGroup();
          waiter := Terminating(DescendantsLeft);
        } else {
          waiter := Resolved(exit.value.status);
          seenGone := seenGone || cfg.hasPid;
        }
      } else if waiter.Terminating? {
        if phase == GroupGone {
          waiter := Rejected(waiter.reason);
        } else if phase == RemainedAlive {
          waiter := Rejected(GroupRemained);
        } else if phase == SignalFailed {
          waiter := Rejected(ProbeError);
        }
      }
    }
  }

  /** `runOwnedCommand` and the variables its collectors share. */
  class CommandRunner {
    const cfg: Config
    const owned: ProcessOwner
    var stdout: seq<Buffer>
    var stderr: seq<Buffer>
    var stdoutSize: nat
    var stderrSize: nat
    var outputExceeded: bool
    var result: Result
    ghost var delivered: seq<Buffer>

    ghost function OutputView(): Output
      reads this
    {
      Output(stdout, stderr, stdoutSize, stderrSize, outputExceeded, delivered)
    }

    ghost function View(): State
      reads this, owned
    {
      State(owned.exit, owned.GroupView(), OutputView(), owned.waiter, result)
    }

    ghost predicate Valid()
      reads this, owned
    {
      owned.cfg == cfg
    }

    constructor (cfg: Config)
      ensures Valid() && View() == INITIAL && this.cfg == cfg && fresh(owned)
    {
      this.cfg := cfg;
      owned := new ProcessOwner(cfg);
      stdout, stderr, stdoutSize, stderrSize, outputExceeded := [], [], 0, 0, false;
      result, delivered := Running, [];
    }

    method OnData(stream: Stream, bytes: Buffer)
      requires Valid()
      modifies this, owned
      ensures Valid() && View() == Step(cfg, old(View()), Chunk(stream, bytes))
    {
      if stream == Stdout {
        delivered := delivered + [bytes];
      }
      if outputExceeded {
        return;
      }
      if stream == Stdout {
        stdoutSize := stdoutSize + |bytes|;
      } else {
        stderrSize := stderrSize + |bytes|;
      }
      if stdoutSize > cfg.maximumOutputBytes || stderrSize > cfg.maximumOutputBytes {
        outputExceeded := true;
        owned.TerminateGroup();
        return;
      }
      if stream == Stdout {
        stdout := stdout + [bytes];
      } else {
        stderr := stderr + [bytes];
      }
    }

    method Finish()
      requires Valid()
      modifies this
      ensures Valid() && View() == Step(cfg, old(View()), Conclude)
    {
      if result != Running {
        return;
      }
      if owned.waiter.Rejected? {
        result := Threw(if outputExceeded then OutputExceeded else owned.waiter.error);
      } else if owned.waiter.Resolved? {
        if outputExceeded {
          result := Threw(OutputExceeded);
        } else if owned.waiter.status != 0 {
          result := Threw(CommandFailed(owned.waiter.status));
        } else {
          result := Returned(Concat(stdout));
        }
      }
    }

    /** Any event, handed to the closure that listens for it. */
    method Handle(e: Event)
      requires Valid()
      modifies this, owned
      ensures Valid() && View() == Step(cfg, old(View()), e)
    {
      match e
      case ChildError => if owned.exit.None? { owned.exit := Some(ExitError); }
      case ChildExit(status) => if owned.exit.None? { owned.exit := Some(Exited(status)); }
      case Deadline => owned.OnDeadline();
      case Chunk(stream, bytes) => OnData(stream, bytes);
      case Closed(_) =>
      case Terminate => owned.TerminateGroup();
      case Poll(probe, graceOver) => owned.OnPoll(probe, graceOver);
      case Resume(probe) => owned.ResumeWait(probe, OutputView(), result);
      case Conclude => Finish();
    }
  }

  /** Driving the closures with any sequence of events is a run of the transition function. */
  method Drive(cfg: Config, events: seq<Event>) returns (runner: CommandRunner)
    ensures runner.Valid() && runner.View() == Run(cfg, INITIAL, events)
  {
    hide Step;
    runner := new CommandRunner(cfg);
    for i := 0 to |events|
      invariant runner.Valid() && runner.cfg == cfg && fresh(runner) && fresh(runner.owned)
      invariant Run(cfg, INITIAL, events) == Run(cfg, runner.View(), events[i..])
    {
      assert events[i..][1..] == events[i + 1..];
      runner.Handle(events[i]);
    }
  }

  // ----- what every step keeps

  function Size(chunks: seq<Buffer>): nat {
    |Concat(chunks)|
  }

  lemma SizeAppend(chunks: seq<Buffer>, bytes: Buffer)
    ensures Size(chunks + [bytes]) == Size(chunks) + |bytes|
  {
    ConcatAppend(chunks, [bytes]);
    assert Concat([bytes]) == bytes;
  }

  predicate GroupInv(cfg: Config, g: Group) {
    && g.starts == (if g.phase == NotStarted then 0 else 1)
    && g.kills <= 1
    && (g.phase == NotStarted || g.phase == AfterTerm ==> g.kills == 0)
    && (g.phase == AfterKill || g.phase == RemainedAlive ==> g.kills == 1)
    && (g.phase != NotStarted ==> cfg.hasPid && !g.timerActive)
    && (g.phase == GroupGone ==> g.seenGone)
    && (g.deadlineExceeded ==> !g.timerActive && (cfg.hasPid ==> g.phase != NotStarted))
  }

  predicate OutputInv(cfg: Config, o: Output) {
    && Size(o.stdout) <= cfg.maximumOutputBytes
    && Size(o.stderr) <= cfg.maximumOutputBytes
    && (!o.exceeded ==>
          o.stdoutSize == Size(o.stdout) && o.stderrSize == Size(o.stderr) && o.delivered == o.stdout)
  }

  predicate WaiterInv(cfg: Config, exit: Option<Exit>, g: Group, w: Waiter) {
    match w
    case Waiting => true
    case Terminating(reason) =>
      && exit.Some? && !g.timerActive && cfg.hasPid && g.phase != NotStarted
      && (reason == DescendantsLeft || (reason == DeadlineExceeded && g.deadlineExceeded))
    case Resolved(status) =>
      exit == Some(Exited(status)) && !g.timerActive && !g.deadlineExceeded && (cfg.hasPid ==> g.seenGone)
    case Rejected(error) =>
      && exit.Some? && !g.timerActive
      && (error == DeadlineExceeded ==> g.deadlineExceeded && (cfg.hasPid ==> g.seenGone))
      && (error == DescendantsLeft ==> g.seenGone)
      && (error == GroupRemained ==> g.phase == RemainedAlive)
      && !error.OutputExceeded?
  }

  predicate ResultInv(o: Output, w: Waiter, r: Result) {
    match r
    case Running => true
    case Returned(text) => w == Resolved(0)
    case Threw(error) => w.Settled() && (error == OutputExceeded ==> o.exceeded)
  }

  /** The inductive invariant of the protocol; an overflow has always started the termination. */
  predicate Inv(cfg: Config, s: State) {
    && GroupInv(cfg, s.group) && OutputInv(cfg, s.output)
    && WaiterInv(cfg, s.exit, s.group, s.waiter) && ResultInv(s.output, s.waiter, s.result)
    && (s.output.exceeded && cfg.hasPid ==> s.group.phase != NotStarted)
  }

  lemma ChunkKeepsInv(cfg: Config, o: Output, stream: Stream, bytes: Buffer)
    requires OutputInv(cfg, o)
    ensures OutputInv(cfg, Collected(cfg, o, stream, bytes))
    ensures o.exceeded ==> Collected(cfg, o, stream, bytes).exceeded
  {
    hide Size;
    SizeAppend(o.stdout, bytes);
    SizeAppend(o.stderr, bytes);
  }

  lemma ResumeKeepsInv(cfg: Config, s: State, probe: Probe)
    requires Inv(cfg, s)
    ensures Inv(cfg, Resumed(cfg, s, probe))
  {
    hide OutputInv;
  }

  lemma StepKeepsInv(cfg: Config, s: State, e: Event)
    requires Inv(cfg, s)
    ensures Inv(cfg, Step(cfg, s, e))
  {
    hide OutputInv, Collected, Resumed;
    match e {
      case Chunk(stream, bytes) => ChunkKeepsInv(cfg, s.output, stream, bytes);
      case Resume(probe) => ResumeKeepsInv(cfg, s, probe);
      case _ =>
    }
  }

  lemma {:induction false} RunKeepsInv(cfg: Config, s: State, events: seq<Event>)
    requires Inv(cfg, s)
    ensures Inv(cfg, Run(cfg, s, events))
    decreases |events|
  {
    hide Step, Inv;
    if events != [] {
      StepKeepsInv(cfg, s, events[0]);
      RunKeepsInv(cfg, Step(cfg, s, events[0]), events[1..]);
    }
  }

  /**
   Safety over every interleaving: one group termination at most, with at most one SIGKILL
   and only behind its SIGTERM; bounded retained output; a normal return of `wait` only when
   the deadline never fired and the group was seen gone; and an error naming the deadline
   or left descendants only after the group was seen gone.
   */
  lemma EveryRunIsSafe(cfg: Config, events: seq<Event>)
    ensures var s := Run(cfg, INITIAL, events);
            && s.group.starts <= 1 && s.group.kills <= s.group.starts
            && Size(s.output.stdout) <= cfg.maximumOutputBytes && Size(s.output.stderr) <= cfg.maximumOutputBytes
            && (s.waiter.Resolved? ==> !s.group.deadlineExceeded && !s.group.timerActive && (cfg.hasPid ==> s.group.seenGone))
            && (s.waiter == Rejected(DeadlineExceeded) ==> s.group.deadlineExceeded && (cfg.hasPid ==> s.group.starts == 1 && s.group.seenGone))
            && (s.waiter == Rejected(DescendantsLeft) ==> s.group.seenGone)
            && (s.waiter == Rejected(GroupRemained) ==> s.group.kills == 1)
            && (s.result == Threw(OutputExceeded) ==> s.output.exceeded)
            && (s.result.Returned? ==> s.exit == Some(Exited(0)))
  {
    hide Run;
    ReachableInv(cfg, events);
  }

  // ----- what can no longer happen

  /** What never changes back once a run has reached `s`. */
  predicate Later(s: State, t: State) {
    && (s.output.exceeded ==> t.output.exceeded)
    && (s.group.deadlineExceeded ==> t.group.deadlineExceeded)
    && (!s.group.timerActive ==> !t.group.timerActive && t.group.deadlineExceeded == s.group.deadlineExceeded)
    && (!s.result.Running? ==> t.result == s.result)
    && (s.waiter.Settled() ==> t.waiter == s.waiter)
  }

  lemma StepIsLater(cfg: Config, s: State, e: Event)
    ensures Later(s, Step(cfg, s, e))
  {
  }

  lemma {:induction false} RunIsLater(cfg: Config, s: State, events: seq<Event>)
    ensures Later(s, Run(cfg, s, events))
    decreases |events|
  {
    hide Step;
    if events != [] {
      StepIsLater(cfg, s, events[0]);
      RunIsLater(cfg, Step(cfg, s, events[0]), events[1..]);
    }
  }

  lemma {:induction false} RunCompose(cfg: Config, s: State, a: seq<Event>, b: seq<Event>)
    ensures Run(cfg, s, a + b) == Run(cfg, Run(cfg, s, a), b)
    decreases |a|
  {
    hide Step;
    if a == [] {
      assert a + b == b;
    } else {
      assert (a + b)[1..] == a[1..] + b;
      RunCompose(cfg, Step(cfg, s, a[0]), a[1..], b);
    }
  }

  /** The one step that returns text. */
  lemma StepReturns(cfg: Config, s: State, e: Event)
    requires Inv(cfg, s) && s.result.Running? && Step(cfg, s, e).result.Returned?
    ensures e == Conclude && !s.output.exceeded && !s.group.deadlineExceeded
    ensures Step(cfg, s, e).result == Returned(Concat(s.output.delivered))
    ensures Size(s.output.delivered) <= cfg.maximumOutputBytes
  {
    hide Size, Concat, Collected;
  }

  lemma {:induction false} RunReturns(cfg: Config, s: State, events: seq<Event>)
    requires Inv(cfg, s) && s.result.Running?
    requires s.output.exceeded || s.group.deadlineExceeded
    ensures !Run(cfg, s, events).result.Returned?
    decreases |events|
  {
    hide Step, Inv;
    if events != [] {
      var e := events[0];
      var t := Step(cfg, s, e);
      StepKeepsInv(cfg, s, e);
      StepIsLater(cfg, s, e);
      if t.result.Running? {
        RunReturns(cfg, t, events[1..]);
      } else {
        if t.result.Returned? {
          StepReturns(cfg, s, e);
        }
        RunIsLater(cfg, t, events[1..]);
      }
    }
  }

  lemma ReachableInv(cfg: Config, events: seq<Event>)
    ensures Inv(cfg, Run(cfg, INITIAL, events))
  {
    hide Run;
    assert Size([]) == 0;
    RunKeepsInv(cfg, INITIAL, events);
  }

  /** Once the output overflowed or the deadline fired, no continuation returns text. */
  lemma NoTextAfterOverflowOrDeadline(cfg: Config, before: seq<Event>, after: seq<Event>)
    requires var s := Run(cfg, INITIAL, before);
             s.result.Running? && (s.output.exceeded || s.group.deadlineExceeded)
    ensures !Run(cfg, INITIAL, before + after).result.Returned?
  {
    hide Run, Inv;
    ReachableInv(cfg, before);
    RunCompose(cfg, INITIAL, before, after);
    RunReturns(cfg, Run(cfg, INITIAL, before), after);
  }

  /** Text is returned only by `Conclude`, and it is all the standard output delivered so far. */
  lemma TextIsAllOutputSoFar(cfg: Config, before: seq<Event>, e: Event)
    requires var s := Run(cfg, INITIAL, before); s.result.Running? && Step(cfg, s, e).result.Returned?
    ensures var s := Run(cfg, INITIAL, before);
            && e == Conclude && !s.output.exceeded && !s.group.deadlineExceeded
            && Step(cfg, s, e).result == Returned(Concat(s.output.delivered))
            && Size(s.output.delivered) <= cfg.maximumOutputBytes
  {
    hide Run, Inv, Step;
    ReachableInv(cfg, before);
    StepReturns(cfg, Run(cfg, INITIAL, before), e);
  }

  // ----- output behind the return

  /** The standard output that the events deliver. */
  function Written(events: seq<Event>): Buffer {
    if events == [] then []
    else WrittenBy(events[0]) + Written(events[1..])
  }

  function WrittenBy(e: Event): Buffer {
    if e.Chunk? && e.stream == Stdout then e.bytes else []
  }

  lemma {:induction false} DeliveredIsWritten(cfg: Config, s: State, events: seq<Event>)
    ensures Concat(Run(cfg, s, events).output.delivered) == Concat(s.output.delivered) + Written(events)
    decreases |events|
  {
    hide Step, Concat, WrittenBy;
    if events == [] {
      assert Concat(s.output.delivered) + [] == Concat(s.output.delivered);
    } else {
      var t := Step(cfg, s, events[0]);
      DeliveredByOne(cfg, s, events[0]);
      DeliveredIsWritten(cfg, t, events[1..]);
      Associates(Concat(s.output.delivered), WrittenBy(events[0]), Written(events[1..]));
    }
  }

  lemma Associates(a: Buffer, b: Buffer, c: Buffer)
    ensures (a + b) + c == a + (b + c)
  {
  }

  lemma DeliveredByOne(cfg: Config, s: State, e: Event)
    ensures Concat(Step(cfg, s, e).output.delivered)
         == Concat(s.output.delivered) + WrittenBy(e)
  {
    hide Concat;
    var delivered := s.output.delivered;
    assert Concat(delivered) + [] == Concat(delivered);
    if e.Chunk? {
      ConcatAppend(delivered, [e.bytes]);
      ConcatOne(e.bytes);
    }
  }

  lemma ConcatOne(bytes: Buffer)
    ensures Concat([bytes]) == bytes
  {
    assert Concat([bytes]) == bytes + [];
  }

  /**
   The text a command returns is everything that its child ever delivers exactly when nothing is
   delivered behind the return: the exit of the child does not wait for its streams to close.
   */
  lemma TextIsAllOutputIff(cfg: Config, before: seq<Event>, after: seq<Event>)
    requires var s := Run(cfg, INITIAL, before); s.result.Running? && Step(cfg, s, Conclude).result.Returned?
    ensures var s, t := Run(cfg, INITIAL, before), Run(cfg, INITIAL, before + ([Conclude] + after));
            && t.result == Returned(Concat(s.output.delivered))
            && (t.result == Returned(Concat(t.output.delivered)) <==> Written(after) == [])
  {
    hide Run, Inv, Step;
    var s := Run(cfg, INITIAL, before);
    var r := Step(cfg, s, Conclude);
    ReachableInv(cfg, before);
    StepReturns(cfg, s, Conclude);
    RunCompose(cfg, INITIAL, before, [Conclude] + after);
    RunOne(cfg, s, Conclude, after);
    RunIsLater(cfg, r, after);
    DeliveredByOne(cfg, s, Conclude);
    DeliveredIsWritten(cfg, r, after);
    assert |Concat(s.output.delivered) + Written(after)| == |Concat(s.output.delivered)| + |Written(after)|;
  }

  /** Nothing is delivered on standard output behind its close. */
  predicate ClosesOnce(events: seq<Event>) {
    forall i, j | 0 <= i < j < |events| :: events[i] == Closed(Stdout) ==> !(events[j].Chunk? && events[j].stream == Stdout)
  }

  /** The command returns at the conclusion behind these events. */
  predicate ReturnsBehind(cfg: Config, before: seq<Event>) {
    var s := Run(cfg, INITIAL, before);
    s.result.Running? && Step(cfg, s, Conclude).result.Returned?
  }

  /** The text that a run has returned is everything that it delivered. */
  predicate TextIsComplete(cfg: Config, events: seq<Event>) {
    var t := Run(cfg, INITIAL, events);
    t.result == Returned(Concat(t.output.delivered))
  }

  /** Whatever happens behind the return, the text is complete. */
  ghost predicate StaysComplete(cfg: Config, before: seq<Event>) {
    forall after :: ClosesOnce(before + ([Conclude] + after)) ==> TextIsComplete(cfg, before + ([Conclude] + after))
  }

  /**
   A caller who lets the command conclude only behind the close of standard output never loses
   any of it, and in no other way: without the close there is a continuation that loses output.
   */
  lemma CompleteIffClosedFirst(cfg: Config, before: seq<Event>)
    requires ReturnsBehind(cfg, before) && ClosesOnce(before)
    ensures StaysComplete(cfg, before) <==> Closed(Stdout) in before
  {
    hide Run, Step, TextIsComplete;
    if Closed(Stdout) in before {
      forall after | ClosesOnce(before + ([Conclude] + after))
        ensures TextIsComplete(cfg, before + ([Conclude] + after))
      {
        NothingBehindClose(before, after);
        CompleteIff(cfg, before, after);
      }
    } else {
      var after := [Chunk(Stdout, [0])];
      var events := before + ([Conclude] + after);
      assert ClosesOnce(events) by {
        assert forall i | 0 <= i < |events| :: events[i] != Closed(Stdout);
      }
      assert Written(after) == [0] by {
        assert after[1..] == [];
      }
      CompleteIff(cfg, before, after);
    }
  }

  lemma CompleteIff(cfg: Config, before: seq<Event>, after: seq<Event>)
    requires ReturnsBehind(cfg, before)
    ensures TextIsComplete(cfg, before + ([Conclude] + after)) <==> Written(after) == []
  {
    hide Run, Step;
    TextIsAllOutputIff(cfg, before, after);
  }

  lemma {:induction false} NothingBehindClose(before: seq<Event>, after: seq<Event>)
    requires Closed(Stdout) in before && ClosesOnce(before + ([Conclude] + after))
    ensures Written(after) == []
    decreases |after|
  {
    if after != [] {
      var events, n := before + ([Conclude] + after), |before|;
      var i :| 0 <= i < n && before[i] == Closed(Stdout);
      assert events[i] == Closed(Stdout) && events[n + 1] == after[0];
      var rest := before + ([Conclude] + after[1..]);
      assert forall k | 0 <= k <= n :: rest[k] == events[k];
      assert forall k | n < k < |rest| :: rest[k] == events[k + 1];
      NothingBehindClose(before, after[1..]);
    }
  }

  lemma RunOne(cfg: Config, s: State, e: Event, rest: seq<Event>)
    ensures Run(cfg, s, [e] + rest) == Run(cfg, Step(cfg, s, e), rest)
  {
    hide Step;
    assert ([e] + rest)[1..] == rest;
  }

  /** Every run that has returned did so at one `Conclude`, so the statement above covers it. */
  lemma {:induction false} WhereItReturned(cfg: Config, events: seq<Event>) returns (k: nat)
    requires Run(cfg, INITIAL, events).result.Returned?
    ensures k < |events| && events[k] == Conclude
    ensures var s := Run(cfg, INITIAL, events[..k]); s.result.Running? && Step(cfg, s, Conclude).result.Returned?
    decreases |events|
  {
    hide Step, Run;
    if events == [] {
      RunNone(cfg, INITIAL);
    }
    var n := |events| - 1;
    var s := Run(cfg, INITIAL, events[..n]);
    assert events == events[..n] + ([events[n]] + []);
    RunCompose(cfg, INITIAL, events[..n], [events[n]] + []);
    RunOne(cfg, s, events[n], []);
    RunNone(cfg, Step(cfg, s, events[n]));
    StepIsLater(cfg, s, events[n]);
    if s.result.Running? {
      ReachableInv(cfg, events[..n]);
      StepReturns(cfg, s, events[n]);
      k := n;
    } else {
      k := WhereItReturned(cfg, events[..n]);
      assert events[..n][..k] == events[..k];
    }
  }

  lemma RunNone(cfg: Config, s: State)
    ensures Run(cfg, s, []) == s
  {
  }

  /** A run in which output is lost: the exit and the waiter's probe come before the last chunk. */
  lemma LateOutputIsLost(early: Buffer, late: Buffer)
    requires |early| <= 4096 && late != []
    ensures var s := Run(Config(true, 4096), INITIAL, [Chunk(Stdout, early), ChildExit(0), Resume(Gone), Conclude, Chunk(Stdout, late)]);
            && s.result == Returned(early) && Concat(s.output.delivered) == early + late
  {
    var cfg, before, after := Config(true, 4096), [Chunk(Stdout, early), ChildExit(0), Resume(Gone)], [Chunk(Stdout, late)];
    var events := [Chunk(Stdout, early), ChildExit(0), Resume(Gone), Conclude, Chunk(Stdout, late)];
    EarlyRun(cfg, early);
    assert events == before + ([Conclude] + after);
    TextIsAllOutputIff(cfg, before, after);
    DeliveredIsWritten(cfg, INITIAL, events);
    ConcatOne(early);
    WrittenPair(early, late);
  }

  lemma EarlyRun(cfg: Config, early: Buffer)
    requires cfg == Config(true, 4096) && |early| <= 4096
    ensures var s := Run(cfg, INITIAL, [Chunk(Stdout, early), ChildExit(0), Resume(Gone)]);
            s.result.Running? && s.output.delivered == [early] && Step(cfg, s, Conclude).result.Returned?
  {
    var e := [Chunk(Stdout, early), ChildExit(0), Resume(Gone)];
    var s1 := Step(cfg, INITIAL, e[0]);
    var s2 := Step(cfg, s1, e[1]);
    var s3 := Step(cfg, s2, e[2]);
    assert s3.waiter == Resolved(0) && s3.output.delivered == [early];
    assert e[2..][1..] == [] && e[1..][1..] == e[2..];
    assert s3 == Run(cfg, s3, []) == Run(cfg, s2, e[2..]) == Run(cfg, s1, e[1..]);
  }

  lemma WrittenPair(early: Buffer, late: Buffer)
    ensures Written([Chunk(Stdout, early), ChildExit(0), Resume(Gone), Conclude, Chunk(Stdout, late)]) == early + late
  {
    var e := [Chunk(Stdout, early), ChildExit(0), Resume(Gone), Conclude, Chunk(Stdout, late)];
    assert e[4..][1..] == [] && Written(e[4..]) == late + [] == late;
    assert e[3..][1..] == e[4..] && Written(e[3..]) == late;
    assert e[2..][1..] == e[3..] && Written(e[2..]) == late;
    assert e[1..][1..] == e[2..] && Written(e[1..]) == late;
  }

  // ----- when a run settles

  predicate IsExit(e: Event) {
    e.ChildError? || e.ChildExit?
  }

  predicate HasExit(events: seq<Event>) {
    exists i :: 0 <= i < |events| && IsExit(events[i])
  }

  lemma {:induction false} ExitIsKnownIff(cfg: Config, s: State, events: seq<Event>)
    ensures Run(cfg, s, events).exit.Some? <==> s.exit.Some? || HasExit(events)
    decreases |events|
  {
    if events != [] {
      ExitIsKnownIff(cfg, Step(cfg, s, events[0]), events[1..]);
      assert HasExit(events) <==> IsExit(events[0]) || HasExit(events[1..]) by {
        assert events == [events[0]] + events[1..];
      }
    }
  }

  /** Before the child's exit nothing settles, whatever the deadline, the overflow and the signals have come to. */
  lemma {:induction false} NothingSettlesWithoutExit(cfg: Config, s: State, events: seq<Event>)
    requires s.exit.None? && s.waiter == Waiting && s.result == Running && !HasExit(events)
    ensures Run(cfg, s, events).waiter == Waiting && Run(cfg, s, events).result == Running
    decreases |events|
  {
    if events != [] {
      assert !IsExit(events[0]);
      assert forall i :: 0 <= i < |events[1..]| ==> events[1..][i] == events[i + 1];
      NothingSettlesWithoutExit(cfg, Step(cfg, s, events[0]), events[1..]);
    }
  }

  predicate IsFinal(phase: Phase) {
    phase.GroupGone? || phase.RemainedAlive? || phase.SignalFailed?
  }

  /** How far the waiter has come behind the child's exit; at 5 the command has its result. */
  function Stage(s: State): nat {
    if !s.result.Running? then 5
    else if s.waiter.Settled() then 4
    else if s.waiter.Terminating? then (if IsFinal(s.group.phase) then 3 else if s.group.phase.AfterKill? then 2 else 1)
    else 0
  }

  /** What an event is sure to achieve: a resumption, the end of a grace period, a conclusion. */
  function Advanced(stage: nat, e: Event): nat {
    match e
    case Resume(_) => if stage == 0 || stage == 3 then stage + 1 else stage
    case Poll(_, graceOver) => if graceOver && (stage == 1 || stage == 2) then stage + 1 else stage
    case Conclude => if stage == 4 then 5 else stage
    case _ => stage
  }

  function StageBehind(stage: nat, events: seq<Event>): nat
    decreases |events|
  {
    if events == [] then stage else StageBehind(Advanced(stage, events[0]), events[1..])
  }

  /** Enough is scheduled: a resumption, the ends of both grace periods, a resumption and a conclusion, in this order. */
  predicate IsFair(events: seq<Event>) {
    StageBehind(0, events) == 5
  }

  lemma StepAdvances(cfg: Config, s: State, e: Event)
    requires Inv(cfg, s) && s.exit.Some?
    ensures Stage(Step(cfg, s, e)) >= Advanced(Stage(s), e)
  {
    hide OutputInv, Collected;
  }

  lemma {:induction false} StageIsMonotone(low: nat, high: nat, events: seq<Event>)
    requires low <= high <= 5
    ensures StageBehind(low, events) <= StageBehind(high, events)
    decreases |events|
  {
    if events != [] {
      StageIsMonotone(Advanced(low, events[0]), Advanced(high, events[0]), events[1..]);
    }
  }

  lemma {:induction false} RunAdvances(cfg: Config, s: State, events: seq<Event>)
    requires Inv(cfg, s) && s.exit.Some?
    ensures Stage(Run(cfg, s, events)) >= StageBehind(Stage(s), events)
    decreases |events|
  {
    hide Step, Inv, Stage, Advanced;
    if events != [] {
      var t := Step(cfg, s, events[0]);
      StepKeepsInv(cfg, s, events[0]);
      StepAdvances(cfg, s, events[0]);
      ExitStays(cfg, s, events[0]);
      RunAdvances(cfg, t, events[1..]);
      StageBound(s, events[0]);
      StageBound(t, events[0]);
      StageIsMonotone(Advanced(Stage(s), events[0]), Stage(t), events[1..]);
    }
  }

  lemma ExitStays(cfg: Config, s: State, e: Event)
    requires s.exit.Some?
    ensures Step(cfg, s, e).exit.Some?
  {
  }

  lemma StageBound(s: State, e: Event)
    ensures Stage(s) <= 5 && Advanced(Stage(s), e) <= 5
  {
  }

  /**
   Under a fair schedule behind the events so far, a command gets its result exactly when its
   child has exited. A child that outlives SIGKILL leaves it pending for good, also behind the
   deadline or an overflow, since termination has cleared the timer.
   */
  lemma SettlesIffChildExits(cfg: Config, before: seq<Event>, after: seq<Event>)
    requires IsFair(after) && !HasExit(after)
    ensures var s := Run(cfg, INITIAL, before + after);
            && (HasExit(before) ==> s.waiter.Settled() && !s.result.Running?)
            && (!HasExit(before) ==> s.waiter == Waiting && s.result == Running)
  {
    hide Run, Step, Inv, StageBehind;
    var s := Run(cfg, INITIAL, before);
    var t := Run(cfg, INITIAL, before + after);
    RunCompose(cfg, INITIAL, before, after);
    if HasExit(before) {
      ExitIsKnownIff(cfg, INITIAL, before);
      ReachableInv(cfg, before);
      ReachableInv(cfg, before + after);
      RunAdvances(cfg, s, after);
      StageBound(s, Conclude);
      StageIsMonotone(0, Stage(s), after);
      StageBound(t, Conclude);
      ResultIsSettled(cfg, t);
    } else {
      assert !HasExit(before + after);
      NothingSettlesWithoutExit(cfg, INITIAL, before + after);
    }
  }

  lemma ResultIsSettled(cfg: Config, s: State)
    requires Inv(cfg, s) && Stage(s) >= 5
    ensures !s.result.Running? && s.waiter.Settled()
  {
    hide OutputInv, GroupInv;
  }

  /** Such a child, behind the deadline: the group got SIGKILL and remained, and the command waits on. */
  lemma SurvivorLeavesItPending()
    ensures var s := Run(Config(true, 4096), INITIAL, [Deadline, Poll(Exists, true), Poll(Exists, true), Resume(Exists), Conclude]);
            && s.group.deadlineExceeded && !s.group.timerActive && s.group.phase == RemainedAlive && s.group.kills == 1
            && s.waiter == Waiting && s.result == Running
  {
    var cfg, e := Config(true, 4096), [Deadline, Poll(Exists, true), Poll(Exists, true), Resume(Exists), Conclude];
    var s1 := Step(cfg, INITIAL, e[0]);
    var s2 := Step(cfg, s1, e[1]);
    var s3 := Step(cfg, s2, e[2]);
    assert Step(cfg, Step(cfg, s3, e[3]), e[4]) == s3;
    assert e[1..][1..] == e[2..] && e[2..][1..] == e[3..] && e[3..][1..] == e[4..] && e[4..][1..] == [];
    assert s3 == Run(cfg, s3, []) == Run(cfg, s3, e[4..]) == Run(cfg, s3, e[3..]) == Run(cfg, s2, e[2..]) == Run(cfg, s1, e[1..]);
  }
}
