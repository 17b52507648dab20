/**
 * The stop protocol between the kernel and pocker's syscall loop. The kernel makes a running tracee
 * stop at hooks along each system call; the tracer waits for an entry and an exit by turns, choosing
 * how to resume the tracee and which kind of stop to wait for.
 */
module SyscallStops {
  import opened Wrappers

  datatype Mode = Cont | ToSyscallStop

  /** A stop reported by the kernel; `call` numbers the system calls of the tracee. */
  datatype Stop =
    | EntryStop(call: nat)
    | SeccompStop(call: nat)
    | ExitStop(call: nat)
    | SignalStop
    | EventStop
    | OtherStop

  datatype FutureType = WaitForPtraceSyscall | WaitForPtraceSeccomp | WaitForSignal | WaitForPtraceEvent

  // ---- The tracer ----

  /** The state that wait_for_syscall keeps, with the locals that live across its awaits. */
  datatype Tracer = Tracer(
    legacy: bool,
    noSeccomp: bool,
    ready: bool,
    afterEntry: bool,
    mode: Mode,
    awaiting: FutureType,
    readyThen: bool,
    expectsExit: bool,
    secondRound: bool)

  datatype Reply = Waiting | Returned | Failed

  /** The first half of wait_for_syscall, up to its await. */
  function BeginWait(t: Tracer): Tracer {
    var expectsStop := !t.ready || t.afterEntry;
    t.(afterEntry := false, readyThen := t.ready, expectsExit := t.afterEntry, secondRound := false,
       mode := if expectsStop then ToSyscallStop else Cont,
       awaiting := if expectsStop then WaitForPtraceSyscall else WaitForPtraceSeccomp)
  }

  /** Which future the synchronous loop unblocks for a stop; an unknown stop unblocks none. */
  function Dispatch(stop: Stop): Option<FutureType> {
    match stop
    case SignalStop => Some(WaitForSignal)
    case SeccompStop(_) => Some(WaitForPtraceSeccomp)
    case EventStop => Some(WaitForPtraceEvent)
    case EntryStop(_) => Some(WaitForPtraceSyscall)
    case ExitStop(_) => Some(WaitForPtraceSyscall)
    case OtherStop => None
  }

  function IsSyscallStop(stop: Stop): bool {
    stop.EntryStop? || stop.ExitStop?
  }

  /** What wait_for_syscall does with a stop. A stop for another future leaves it, and the resume mode, alone. */
  function OnStop(t: Tracer, stop: Stop): (Tracer, Reply) {
    if Dispatch(stop) != Some(t.awaiting) then (t, Waiting)
    else if !t.readyThen then (t, if IsSyscallStop(stop) then Returned else Failed)
    else if stop.SeccompStop? then
      if t.expectsExit then (t, Failed) else (t.(afterEntry := true), Returned)
    else if IsSyscallStop(stop) && t.expectsExit then
      if !t.legacy || t.secondRound then (t.(afterEntry := false), Returned)
      else
        (t.(afterEntry := false, mode := ToSyscallStop, awaiting := WaitForPtraceSyscall, secondRound := true), Waiting)
    else (t, Failed)
  }

  /** The waiting code on the fields it updates. */
  class SyscallWaiter {
    const legacy: bool
    const noSeccomp: bool
    var ready: bool
    var afterEntry: bool
    var mode: Mode
    var awaiting: FutureType
    var readyThen: bool
    var expectsExit: bool
    var secondRound: bool

    ghost function Abs(): Tracer
      reads this
    {
      Tracer(legacy, noSeccomp, ready, afterEntry, mode, awaiting, readyThen, expectsExit, secondRound)
    }

    constructor (legacy: bool, noSeccomp: bool)
      ensures Abs() == FreshTracer(legacy, noSeccomp)
    {
      this.legacy, this.noSeccomp := legacy, noSeccomp;
      ready, afterEntry, mode, awaiting := false, false, Cont, WaitForSignal;
      readyThen, expectsExit, secondRound := false, false, false;
    }

    method Begin()
      modifies this
      ensures Abs() == BeginWait(old(Abs()))
    {
      readyThen := ready;
      expectsExit := afterEntry;
      afterEntry := false;
      secondRound := false;
      var expectsStop := !readyThen || expectsExit;
      mode := if expectsStop then ToSyscallStop else Cont;
      awaiting := if expectsStop then WaitForPtraceSyscall else WaitForPtraceSeccomp;
    }

    method Deliver(stop: Stop) returns (reply: Reply)
      modifies this
      ensures (Abs(), reply) == OnStop(old(Abs()), stop)
    {
      if Dispatch(stop) != Some(awaiting) {
        return Waiting;
      }
      if !readyThen {
        return if IsSyscallStop(stop) then Returned else Failed;
      }
      if stop.SeccompStop? {
        if expectsExit {
          return Failed;
        }
        afterEntry := true;
        return Returned;
      } else if IsSyscallStop(stop) && expectsExit {
        afterEntry := false;
        if !legacy || secondRound {
          return Returned;
        }
        mode := ToSyscallStop;
        awaiting := WaitForPtraceSyscall;
        secondRound := true;
        return Waiting;
      }
      reply := Failed;
    }
  }

  function FreshTracer(legacy: bool, noSeccomp: bool): Tracer {
    Tracer(legacy, noSeccomp, false, false, Cont, WaitForSignal, false, false, false)
  }

  // ---- The kernel ----

  /** Where a tracee is along a system call: before it, at one of two entry hooks, inside, or about to leave. */
  datatype Phase = User | FirstHook | SecondHook | Inside | Leaving

  datatype Kernel = Kernel(phase: Phase, call: nat, filter: bool)

  /** The entry stop precedes the seccomp check, except on kernels before 4.8. */
  function EntryHook(legacy: bool): Phase {
    if legacy then SecondHook else FirstHook
  }

  // ---- The whole system ----

  /** `entered` tells whether the caller of wait_for_syscall takes the next return for an exit. */
  datatype Sys = Sys(kernel: Kernel, stopped: Option<Stop>, tracer: Tracer, entered: bool, initDone: bool,
                     log: seq<Stop>, failed: bool)

  /** One scheduling choice: the running tracee moves on, or the tracer handles the current stop. */
  datatype Choice =
    | Signal
    | Other
    | Trap
    | Hook(traced: bool)
    | Event
    | Finish(installs: bool)
    | Leave
    | Handle(endsInit: bool)

  function Init(legacy: bool, noSeccomp: bool, filter: bool): Sys {
    Sys(Kernel(User, 0, filter), None, BeginWait(FreshTracer(legacy, noSeccomp)), false, false, [], false)
  }

  /** The steady state of a legacy kernel: filter installed, tracee between system calls. */
  function Steady(legacy: bool, call: nat): Sys {
    Sys(Kernel(User, call, true), None, BeginWait(FreshTracer(legacy, false).(ready := true)), false, false, [], false)
  }

  /** What the running tracee does; None if the choice does not apply. */
  function KernelStep(legacy: bool, mode: Mode, k: Kernel, c: Choice): Option<(Kernel, Option<Stop>)> {
    match c
    case Signal => if k.phase.User? then Some((k, Some(SignalStop))) else None
    case Other => if k.phase.User? then Some((k, Some(OtherStop))) else None
    case Trap => if k.phase.User? then Some((k.(phase := FirstHook), None)) else None
    case Hook(traced) =>
      if !k.phase.FirstHook? && !k.phase.SecondHook? then None
      else
        var k' := k.(phase := if k.phase.FirstHook? then SecondHook else Inside);
        if k.phase == EntryHook(legacy) then
          Some((k', if mode == ToSyscallStop then Some(EntryStop(k.call)) else None))
        else
          Some((k', if traced && k.filter then Some(SeccompStop(k.call)) else None))
    case Event => if k.phase.Inside? then Some((k, Some(EventStop))) else None
    case Finish(installs) =>
      if k.phase.Inside? then Some((k.(phase := Leaving, filter := k.filter || installs), None)) else None
    case Leave =>
      if !k.phase.Leaving? then None
      else Some((k.(phase := User, call := k.call + 1), if mode == ToSyscallStop then Some(ExitStop(k.call)) else None))
    case Handle(_) => None
  }

  /**
   * The loop around wait_for_syscall after a return: an entry is followed by exactly one exit wait.
   * The first entry after initialisation switches to seccomp; initialisation ends at an exit, and only
   * once the filter is installed or unwanted.
   */
  function AfterReturn(s: Sys, t: Tracer, stop: Stop, endsInit: bool): Option<Sys> {
    if !s.entered then
      var t' := if s.initDone then t.(ready := !t.noSeccomp, afterEntry := true) else t;
      Some(s.(stopped := None, tracer := BeginWait(t'), entered := true, initDone := false, log := s.log + [stop]))
    else if endsInit && !s.kernel.filter && !t.noSeccomp then None
    else
      Some(s.(stopped := None, tracer := BeginWait(t), entered := false, initDone := s.initDone || endsInit,
              log := s.log + [stop]))
  }

  function Step(s: Sys, c: Choice): Option<Sys> {
    if s.failed then None
    else if s.stopped.None? then
      match KernelStep(s.tracer.legacy, s.tracer.mode, s.kernel, c)
      case None => None
      case Some((k, stop)) => Some(s.(kernel := k, stopped := stop))
    else if !c.Handle? then None
    else
      var (t, reply) := OnStop(s.tracer, s.stopped.value);
      match reply
      case Waiting => Some(s.(tracer := t, stopped := None))
      case Failed => Some(s.(tracer := t, failed := true))
      case Returned => AfterReturn(s, t, s.stopped.value, c.endsInit)
  }

  /** The run that a list of choices describes; None if some choice does not apply. */
  function Run(s: Sys, choices: seq<Choice>): Option<Sys> {
    if choices == [] then Some(s)
    else match Run(s, choices[..|choices| - 1])
      case None => None
      case Some(s') => Step(s', choices[|choices| - 1])
  }

  // ---- What the tracer is promised ----

  /**
   * Returns come in pairs: the entry of a call, by either kind of stop, then the exit of the same call.
   * Later pairs belong to later calls, so no call is seen twice.
   */
  ghost predicate Alternates(log: seq<Stop>) {
    && (forall i :: 0 <= i < |log| && i % 2 == 0 ==> log[i].EntryStop? || log[i].SeccompStop?)
    && (forall i :: 0 <= i < |log| && i % 2 == 1 ==> log[i].ExitStop? && log[i].call == log[i - 1].call)
    && (forall i :: 0 < i < |log| && i % 2 == 0 ==> log[i - 1].call < log[i].call)
  }

  ghost predicate InPhase(s: Sys) {
    !s.failed && Alternates(s.log) && s.entered == (|s.log| % 2 == 1)
  }

  /** The position of the tracee that each kind of wait relies on. */
  ghost predicate Aligned(s: Sys) {
    var t, p := s.tracer, s.kernel.phase;
    && InPhase(s)
    && t.readyThen == t.ready
    && !t.afterEntry
    && (t.ready ==> s.kernel.filter || t.noSeccomp)
    && (t.noSeccomp ==> !t.ready)
    && (s.initDone ==> !s.entered && (s.kernel.filter || t.noSeccomp))
    && (!t.ready ==> t.mode == ToSyscallStop && t.awaiting == WaitForPtraceSyscall)
    && (t.ready && !s.entered ==> t.mode == Cont && t.awaiting == WaitForPtraceSeccomp && !t.expectsExit)
    && (t.ready && s.entered ==> t.mode == ToSyscallStop && t.awaiting == WaitForPtraceSyscall && t.expectsExit)
    && (!s.entered && s.log != [] ==> s.log[|s.log| - 1].call < s.kernel.call)
    && (s.stopped.None? ==> Placed(s))
    && (s.stopped.Some? ==> StopPlaced(s, s.stopped.value))
  }

  /** The call whose entry was returned last is still the current one. */
  ghost predicate SameCall(s: Sys)
    requires s.entered && |s.log| % 2 == 1 && Alternates(s.log)
  {
    s.log[|s.log| - 1].call == s.kernel.call
  }

  /** Where the running tracee is. */
  ghost predicate Placed(s: Sys)
    requires InPhase(s)
  {
    var t, p := s.tracer, s.kernel.phase;
    if s.entered then
      && SameCall(s)
      && (!t.legacy ==> p == SecondHook || p == Inside || p == Leaving)
      && (t.legacy && t.ready && !t.secondRound ==> p == SecondHook)
      && (t.legacy && (!t.ready || t.secondRound) ==> p == Inside || p == Leaving)
    else
      !t.ready ==> p == User || p == FirstHook || (t.legacy && p == SecondHook)
  }

  /** Where the tracee is when it has stopped. */
  ghost predicate StopPlaced(s: Sys, stop: Stop)
    requires InPhase(s)
  {
    match stop
    case EntryStop(n) =>
      && s.tracer.mode == ToSyscallStop && n == s.kernel.call
      && s.kernel.phase == (if s.tracer.legacy then Inside else SecondHook)
      && (if s.entered then s.tracer.legacy && s.tracer.ready && !s.tracer.secondRound && SameCall(s) else true)
    case SeccompStop(n) =>
      && n == s.kernel.call && s.kernel.filter
      && s.kernel.phase == (if s.tracer.legacy then SecondHook else Inside)
      && (s.entered ==> !s.tracer.legacy && SameCall(s))
      && (!s.entered && !s.tracer.ready ==> s.tracer.legacy)
    case ExitStop(n) =>
      && s.tracer.mode == ToSyscallStop && s.kernel.phase == User && n + 1 == s.kernel.call
      && s.entered && s.log[|s.log| - 1].call == n
      && (s.tracer.legacy && s.tracer.ready ==> s.tracer.secondRound)
    case _ => Placed(s)
  }

  lemma {:induction false} KernelStepAligned(s: Sys, c: Choice)
    requires Aligned(s) && s.stopped.None? && Step(s, c).Some?
    ensures Aligned(Step(s, c).value)
  {
  }

  lemma {:induction false} AlternatesGrows(log: seq<Stop>, stop: Stop)
    requires Alternates(log)
    requires |log| % 2 == 0 ==> stop.EntryStop? || stop.SeccompStop?
    requires |log| % 2 == 0 && log != [] ==> log[|log| - 1].call < stop.call
    requires |log| % 2 == 1 ==> stop.ExitStop? && stop.call == log[|log| - 1].call
    ensures Alternates(log + [stop])
  {
  }

  /** No switch to seccomp is outstanding on a legacy kernel. */
  ghost predicate NoLegacySwitch(s: Sys) {
    s.tracer.legacy ==> s.tracer.ready || s.tracer.noSeccomp
  }

  lemma {:induction false} HandleAligned(s: Sys, c: Choice)
    requires Aligned(s) && NoLegacySwitch(s) && s.stopped.Some? && Step(s, c).Some?
    ensures Aligned(Step(s, c).value)
  {
    var stop := s.stopped.value;
    var (t, reply) := OnStop(s.tracer, stop);
    if reply == Returned {
      AlternatesGrows(s.log, stop);
    }
  }

  lemma {:induction false} RunAligned(s: Sys, choices: seq<Choice>)
    requires Aligned(s) && NoLegacySwitch(s) && Run(s, choices).Some?
    ensures Aligned(Run(s, choices).value) && NoLegacySwitch(Run(s, choices).value)
  {
    if choices != [] {
      var before, c := choices[..|choices| - 1], choices[|choices| - 1];
      RunAligned(s, before);
      var s' := Run(s, before).value;
      if s'.stopped.None? {
        KernelStepAligned(s', c);
      } else {
        HandleAligned(s', c);
      }
    }
  }

  /**
   * From attaching on, through seccomp initialisation and with stray stops in between, returns alternate
   * between the entry and the exit of the same call: on every kernel from 4.8 on, and without seccomp.
   */
  lemma {:induction false} EntriesAndExitsAlternate(legacy: bool, noSeccomp: bool, filter: bool, choices: seq<Choice>)
    requires !legacy || noSeccomp
    requires Run(Init(legacy, noSeccomp, filter), choices).Some?
    ensures InPhase(Run(Init(legacy, noSeccomp, filter), choices).value)
  {
    RunAligned(Init(legacy, noSeccomp, filter), choices);
  }

  /** On any kernel they alternate from the steady state on, also through later initialisations. */
  lemma {:induction false} SteadyAlternates(legacy: bool, call: nat, choices: seq<Choice>)
    requires Run(Steady(legacy, call), choices).Some?
    ensures InPhase(Run(Steady(legacy, call), choices).value)
  {
    RunAligned(Steady(legacy, call), choices);
  }

  // ---- Progress ----

  /** A system under the premise of these theorems: any kernel in the steady state, or no switch on a legacy one. */
  ghost predicate Sound(s0: Sys) {
    || (exists legacy, noSeccomp, filter :: (!legacy || noSeccomp) && s0 == Init(legacy, noSeccomp, filter))
    || exists legacy, call :: s0 == Steady(legacy, call)
  }

  lemma {:induction false} SoundIsAligned(s0: Sys)
    requires Sound(s0)
    ensures Aligned(s0) && NoLegacySwitch(s0)
  {
  }

  /** The stop that the loop waits for: an exit after an entry, and otherwise a seccomp stop once seccomp is used. */
  predicate Awaited(s: Sys, stop: Stop) {
    if s.entered then stop.ExitStop? else if s.tracer.ready then stop.SeccompStop? else stop.EntryStop?
  }

  /** Initialisation must not end before the filter is installed; the original reports an error then. */
  predicate EndsInitTooEarly(s: Sys, c: Choice) {
    c.Handle? && c.endsInit && s.entered && !s.kernel.filter && !s.tracer.noSeccomp
  }

  lemma {:induction false} HandleProgress(s: Sys, c: Choice)
    requires Aligned(s) && NoLegacySwitch(s) && s.stopped.Some? && c.Handle?
    requires EndsInitTooEarly(s, c) ==> Step(s, c).Some?
    ensures Step(s, c).Some? && Step(s, c).value.stopped.None? && Step(s, c).value.kernel == s.kernel
    ensures Step(s, c).value.log == s.log + if Awaited(s, s.stopped.value) then [s.stopped.value] else []
    ensures Step(s, c).value.entered == (s.entered != Awaited(s, s.stopped.value))
  {
    var stop := s.stopped.value;
    assert StopPlaced(s, stop);
    assert s.log + [] == s.log;
  }

  /**
   * In every reachable state the tracer handles every stop: it returns the stop it waits for, which goes to the
   * log, takes any other for itself, and lets the tracee go on.
   */
  lemma {:induction false} StopsAreHandled(s0: Sys, choices: seq<Choice>, endsInit: bool)
    requires Sound(s0) && Run(s0, choices).Some? && Run(s0, choices).value.stopped.Some?
    requires !EndsInitTooEarly(Run(s0, choices).value, Handle(endsInit))
    ensures var s := Run(s0, choices).value;
            var stop := s.stopped.value;
            var next := Run(s0, choices + [Handle(endsInit)]);
            && next.Some? && next.value.stopped.None? && !next.value.failed
            && next.value.log == (if Awaited(s, stop) then s.log + [stop] else s.log)
  {
    SoundIsAligned(s0);
    RunAligned(s0, choices);
    RunGrows(s0, choices, Handle(endsInit));
    HandleProgress(Run(s0, choices).value, Handle(endsInit));
    HandleAligned(Run(s0, choices).value, Handle(endsInit));
  }

  /** Once seccomp is used, a call that is not traced runs without a stop. */
  lemma {:induction false} UntracedIsUnseen(s0: Sys, choices: seq<Choice>, c: Choice)
    requires Sound(s0) && Run(s0, choices).Some? && Run(s0, choices + [c]).Some?
    requires var s := Run(s0, choices).value; s.tracer.ready && !s.entered && s.stopped.None?
    requires c == Hook(false) || c.Leave?
    ensures Run(s0, choices + [c]).value.stopped.None?
  {
    SoundIsAligned(s0);
    RunAligned(s0, choices);
    RunGrows(s0, choices, c);
  }

  /** The tracee passes a hook at which its call is due: every call until seccomp is used, then the traced ones. */
  predicate DueStep(s: Sys, c: Choice) {
    && s.stopped.None? && c.Hook? && (s.kernel.phase.FirstHook? || s.kernel.phase.SecondHook?)
    && (!s.tracer.ready || (c.traced && s.kernel.filter && s.kernel.phase != EntryHook(s.tracer.legacy)))
  }

  /** Call n became due in the run. */
  predicate DueIn(s0: Sys, choices: seq<Choice>, n: nat) {
    choices != [] &&
    var before, last := choices[..|choices| - 1], choices[|choices| - 1];
    || DueIn(s0, before, n)
    || (Run(s0, before).Some? && DueStep(Run(s0, before).value, last) && Run(s0, before).value.kernel.call == n)
  }

  /** Call n was returned as an entry and then as an exit. */
  ghost predicate SeenPair(log: seq<Stop>, n: nat) {
    exists i: nat :: i + 1 < |log| && (log[i] == EntryStop(n) || log[i] == SeccompStop(n)) && log[i + 1] == ExitStop(n)
  }

  /** Where a due call is on its way: before its entry is returned, behind that, or done. */
  ghost predicate Covered(s: Sys, n: nat)
    requires InPhase(s)
  {
    var t, p := s.tracer, s.kernel.phase;
    if n == s.kernel.call then
      if s.entered then SameCall(s)
      else if t.ready then s.stopped == Some(SeccompStop(n))
      else s.stopped == Some(EntryStop(n)) || p == FirstHook || (t.legacy && p == SecondHook)
    else
      && n < s.kernel.call
      && (SeenPair(s.log, n) || (s.stopped == Some(ExitStop(n)) && s.entered && s.log[|s.log| - 1].call == n))
  }

  lemma {:induction false} DueIsCovered(s: Sys, c: Choice)
    requires Aligned(s) && NoLegacySwitch(s) && DueStep(s, c) && Step(s, c).Some?
    ensures InPhase(Step(s, c).value) && Covered(Step(s, c).value, s.kernel.call)
  {
    KernelStepAligned(s, c);
  }

  lemma {:induction false} SeenPairStays(log: seq<Stop>, more: seq<Stop>, n: nat)
    requires SeenPair(log, n)
    ensures SeenPair(log + more, n)
  {
    var i: nat :| i + 1 < |log| && (log[i] == EntryStop(n) || log[i] == SeccompStop(n)) && log[i + 1] == ExitStop(n);
    assert (log + more)[i] == log[i] && (log + more)[i + 1] == log[i + 1];
  }

  lemma {:induction false} KernelKeepsCovered(s: Sys, c: Choice, n: nat)
    requires Aligned(s) && NoLegacySwitch(s) && s.stopped.None? && Step(s, c).Some? && Covered(s, n)
    ensures InPhase(Step(s, c).value) && Covered(Step(s, c).value, n)
  {
    KernelStepAligned(s, c);
  }

  /** A call that is over stays returned, or is returned now. */
  lemma {:induction false} HandleKeepsSeen(s: Sys, c: Choice, n: nat)
    requires Aligned(s) && NoLegacySwitch(s) && s.stopped.Some? && Step(s, c).Some?
    requires n < s.kernel.call && Covered(s, n)
    ensures SeenPair(Step(s, c).value.log, n) && Step(s, c).value.kernel == s.kernel
  {
    HandleProgress(s, c);
    var stop, log := s.stopped.value, Step(s, c).value.log;
    if SeenPair(s.log, n) {
      SeenPairStays(s.log, if Awaited(s, stop) then [stop] else [], n);
    } else {
      var i := |s.log| - 1;
      assert s.log[i] == EntryStop(n) || s.log[i] == SeccompStop(n);
      assert log[i] == s.log[i] && log[i + 1] == ExitStop(n);
    }
  }

  lemma {:induction false} HandleKeepsCovered(s: Sys, c: Choice, n: nat)
    requires Aligned(s) && NoLegacySwitch(s) && s.stopped.Some? && Step(s, c).Some? && Covered(s, n)
    ensures InPhase(Step(s, c).value) && Covered(Step(s, c).value, n)
  {
    HandleAligned(s, c);
    if n < s.kernel.call {
      HandleKeepsSeen(s, c, n);
    } else {
      assert StopPlaced(s, s.stopped.value);
    }
  }

  lemma {:induction false} RunCovers(s0: Sys, choices: seq<Choice>, n: nat)
    requires Sound(s0) && Run(s0, choices).Some? && DueIn(s0, choices, n)
    ensures InPhase(Run(s0, choices).value) && Covered(Run(s0, choices).value, n)
  {
    var before, c := choices[..|choices| - 1], choices[|choices| - 1];
    SoundIsAligned(s0);
    RunAligned(s0, before);
    var s := Run(s0, before).value;
    if DueIn(s0, before, n) {
      RunCovers(s0, before, n);
      if s.stopped.None? {
        KernelKeepsCovered(s, c, n);
      } else {
        HandleKeepsCovered(s, c, n);
      }
    } else {
      DueIsCovered(s, c);
    }
  }

  /**
   * No call is missed: a call that was due, be it any call during initialisation or one that the filter traces
   * later on, does not get past its exit stop without having been returned as an entry and as an exit.
   */
  lemma {:induction false} NoCallMissed(s0: Sys, choices: seq<Choice>, n: nat)
    requires Sound(s0) && Run(s0, choices).Some? && DueIn(s0, choices, n)
    ensures var s := Run(s0, choices).value;
            s.kernel.call > n && s.stopped != Some(ExitStop(n)) ==> SeenPair(s.log, n)
  {
    RunCovers(s0, choices, n);
  }

  /** Nor does it run inside the kernel before its entry was returned. */
  lemma {:induction false} EntrySeenInside(s0: Sys, choices: seq<Choice>, n: nat)
    requires Sound(s0) && Run(s0, choices).Some? && DueIn(s0, choices, n)
    ensures var s := Run(s0, choices).value;
            s.kernel.call == n && s.stopped.None? && (s.kernel.phase == Inside || s.kernel.phase == Leaving) ==>
              s.log != [] && (s.log[|s.log| - 1] == EntryStop(n) || s.log[|s.log| - 1] == SeccompStop(n))
  {
    RunCovers(s0, choices, n);
  }

  lemma {:induction false} RunGrows(s: Sys, choices: seq<Choice>, c: Choice)
    ensures Run(s, choices + [c]) == match Run(s, choices) case None => None case Some(s') => Step(s', c)
  {
    assert (choices + [c])[..|choices|] == choices;
  }

  lemma {:induction false} RunStep(s0: Sys, choices: seq<Choice>, s: Sys, c: Choice, s': Sys)
    returns (longer: seq<Choice>)
    requires Run(s0, choices) == Some(s) && Step(s, c) == Some(s')
    ensures Run(s0, longer) == Some(s')
  {
    RunGrows(s0, choices, c);
    longer := choices + [c];
  }

  /** A traced tracee of a legacy kernel, somewhere along a call, running or stopped. */
  function At(s: Sys, phase: Phase, stopped: Option<Stop>): Sys {
    s.(kernel := s.kernel.(phase := phase), stopped := stopped)
  }

  lemma {:induction false} LegacyEntrySteps(s: Sys)
    requires !s.failed && s.stopped.None? && s.kernel.phase == User && s.tracer.legacy && s.tracer.mode == ToSyscallStop
    ensures Step(s, Trap) == Some(At(s, FirstHook, None))
    ensures Step(At(s, FirstHook, None), Hook(false)) == Some(At(s, SecondHook, None))
    ensures Step(At(s, SecondHook, None), Hook(false)) == Some(At(s, Inside, Some(EntryStop(s.kernel.call))))
  {
  }

  /** A system call up to its entry stop, on a legacy kernel. */
  lemma {:induction false} LegacyEntry(s: Sys, s0: Sys, choices: seq<Choice>) returns (longer: seq<Choice>)
    requires Run(s0, choices) == Some(s)
    requires !s.failed && s.stopped.None? && s.kernel.phase == User && s.tracer.legacy && s.tracer.mode == ToSyscallStop
    ensures Run(s0, longer) == Some(At(s, Inside, Some(EntryStop(s.kernel.call))))
  {
    LegacyEntrySteps(s);
    longer := RunStep(s0, choices, s, Trap, At(s, FirstHook, None));
    longer := RunStep(s0, longer, At(s, FirstHook, None), Hook(false), At(s, SecondHook, None));
    longer := RunStep(s0, longer, At(s, SecondHook, None), Hook(false), At(s, Inside, Some(EntryStop(s.kernel.call))));
  }

  /** The rest of that call up to its exit stop. */
  lemma {:induction false} LegacyExit(s: Sys, s0: Sys, choices: seq<Choice>) returns (longer: seq<Choice>)
    requires Run(s0, choices) == Some(s)
    requires !s.failed && s.stopped.None? && s.kernel.phase == Inside
    requires s.tracer.legacy && s.tracer.mode == ToSyscallStop
    ensures Run(s0, longer) ==
            Some(s.(kernel := s.kernel.(phase := User, call := s.kernel.call + 1),
                    stopped := Some(ExitStop(s.kernel.call))))
  {
    longer := RunStep(s0, choices, s, Finish(false), At(s, Leaving, None));
    longer := RunStep(s0, longer, At(s, Leaving, None), Leave,
      s.(kernel := s.kernel.(phase := User, call := s.kernel.call + 1), stopped := Some(ExitStop(s.kernel.call))));
  }

  /**
   * The switch to seccomp breaks this on a legacy kernel: the entry stop has been consumed already, so
   * the two stops counted for the exit are this call's exit and the next call's entry.
   */
  lemma {:induction false} LegacySwitchSlips() returns (choices: seq<Choice>)
    ensures Run(Init(true, false, true), choices).Some?
    ensures Run(Init(true, false, true), choices).value.log == [EntryStop(0), ExitStop(0), EntryStop(1), EntryStop(2)]
  {
    var s0 := Init(true, false, true);
    choices := LegacyPair(s0, s0, [], true);
    choices := SwitchEntry(Run(s0, choices).value, s0, choices);
    choices := SwitchExit(Run(s0, choices).value, s0, choices);
  }

  /** The first entry after initialisation: the tracer now relies on seccomp, and waits for the exit. */
  lemma {:induction false} SwitchEntry(s: Sys, s0: Sys, choices: seq<Choice>) returns (longer: seq<Choice>)
    requires Run(s0, choices) == Some(s)
    requires !s.failed && s.stopped.None? && s.kernel == Kernel(User, 1, true) && !s.entered && s.initDone
    requires s.log == [EntryStop(0), ExitStop(0)] && s.tracer == BeginWait(FreshTracer(true, false))
    ensures Run(s0, longer) ==
            Some(s.(kernel := Kernel(Inside, 1, true), entered := true, initDone := false,
                    tracer := BeginWait(s.tracer.(ready := true, afterEntry := true)), log := s.log + [EntryStop(1)]))
  {
    longer := LegacyEntry(s, s0, choices);
    RunGrows(s0, longer, Handle(false));
    longer := longer + [Handle(false)];
  }

  /** Its exit stop counts as the first of two, so the entry stop of the next call is returned in its place. */
  lemma {:induction false} SwitchExit(s: Sys, s0: Sys, choices: seq<Choice>) returns (longer: seq<Choice>)
    requires Run(s0, choices) == Some(s)
    requires !s.failed && s.stopped.None? && s.kernel == Kernel(Inside, 1, true) && s.entered
    requires s.log == [EntryStop(0), ExitStop(0)] + [EntryStop(1)]
    requires s.tracer == BeginWait(BeginWait(FreshTracer(true, false)).(ready := true, afterEntry := true))
    ensures Run(s0, longer).Some?
    ensures Run(s0, longer).value.log == [EntryStop(0), ExitStop(0), EntryStop(1), EntryStop(2)]
  {
    longer := LegacyExit(s, s0, choices);
    RunGrows(s0, longer, Handle(false));
    longer := longer + [Handle(false)];
    longer := LegacyEntry(Run(s0, longer).value, s0, longer);
    RunGrows(s0, longer, Handle(false));
    longer := longer + [Handle(false)];
  }

  /** One call seen by its entry and exit stops before seccomp is used. */
  lemma {:induction false} LegacyPair(s: Sys, s0: Sys, choices: seq<Choice>, endsInit: bool)
    returns (longer: seq<Choice>)
    requires Run(s0, choices) == Some(s)
    requires !s.failed && s.stopped.None? && s.kernel == Kernel(User, 0, true)
    requires !s.entered && !s.initDone && s.log == []
    requires s.tracer == BeginWait(FreshTracer(true, false))
    ensures Run(s0, longer) ==
            Some(s.(kernel := Kernel(User, 1, true), initDone := endsInit, log := [EntryStop(0), ExitStop(0)]))
  {
    longer := LegacyEntry(s, s0, choices);
    RunGrows(s0, longer, Handle(false));
    longer := longer + [Handle(false)];
    var s1 := Run(s0, longer).value;
    longer := LegacyExit(s1, s0, longer);
    RunGrows(s0, longer, Handle(endsInit));
    longer := longer + [Handle(endsInit)];
    assert Run(s0, longer).value.log == [EntryStop(0), ExitStop(0)];
  }

  /** The promise holds on all runs from attaching on exactly for kernels from 4.8 on or when seccomp is not used. */
  lemma {:induction false} AlternationExactly(legacy: bool, noSeccomp: bool)
    ensures (forall filter, choices :: Run(Init(legacy, noSeccomp, filter), choices).Some? ==>
               InPhase(Run(Init(legacy, noSeccomp, filter), choices).value))
            <==> !legacy || noSeccomp
  {
    if !legacy || noSeccomp {
      forall filter, choices | Run(Init(legacy, noSeccomp, filter), choices).Some?
        ensures InPhase(Run(Init(legacy, noSeccomp, filter), choices).value)
      {
        EntriesAndExitsAlternate(legacy, noSeccomp, filter, choices);
      }
    } else {
      var choices := LegacySwitchSlips();
      var log := Run(Init(true, false, true), choices).value.log;
      assert log[3] == EntryStop(2);
      assert !Alternates(log);
    }
  }
}
