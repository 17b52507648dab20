/**
 * System calls that pocker makes the tracee run in place of its own first call after an exec, and the
 * rewinding that lets the tracee issue that call afterwards as if nothing had happened.
 */
module Injection {
  import opened Wrappers

  datatype Arch = X86_64 | Aarch64

  const ENOSYS := 38

  /** The size of the instruction that traps into the kernel. */
  function InstructionSize(arch: Arch): nat {
    if arch == Aarch64 then 4 else 2
  }

  /**
   * `select` is the register that names the call to the kernel: rax, or x8. On x86_64 it also carries the
   * return value and `orig` is orig_rax; on aarch64 the first argument register carries the return value.
   * `scratch` stands for what the trap itself overwrites, `rest` for all other registers.
   */
  datatype Regs = Regs(select: int, orig: int, args: seq<int>, pc: int, scratch: int, rest: int)

  datatype Call = Call(num: int, args: seq<int>)

  /** `number` is the kernel's idea of the call being made; `ran` lists the calls that were carried out. */
  datatype Tracee = Tracee(arch: Arch, regs: Regs, number: int, ran: seq<Call>)

  ghost predicate WellFormed(t: Tracee) {
    |t.regs.args| == 6
  }

  /** The tracee executes the system call instruction and stops at the entry of the call. */
  function Trap(t: Tracee): Tracee {
    var r := t.regs;
    match t.arch
    case X86_64 =>
      t.(regs := r.(orig := r.select, select := -ENOSYS, pc := r.pc + 2, scratch := r.pc + 2), number := r.select)
    case Aarch64 =>
      t.(regs := r.(pc := r.pc + 4), number := r.select)
  }

  /** The kernel carries the call out, and the tracee stops at its exit. */
  function Perform(t: Tracee, ret: int): Tracee
    requires WellFormed(t)
  {
    var done := t.(ran := t.ran + [Call(t.number, t.regs.args)]);
    match t.arch
    case X86_64 => done.(regs := t.regs.(select := ret))
    case Aarch64 => done.(regs := t.regs.(args := t.regs.args[0 := ret]))
  }

  /** The call number that the tracer reads from the registers at an entry stop. */
  function SyscallNum(t: Tracee): int {
    if t.arch == X86_64 then t.regs.orig else t.regs.select
  }

  /** At an entry stop on x86_64 the number is taken from orig_rax; on aarch64 it is a separate register set. */
  function SetRegs(t: Tracee, regs: Regs): Tracee {
    if t.arch == X86_64 then t.(regs := regs, number := regs.orig) else t.(regs := regs)
  }

  function SetSyscallNum(t: Tracee, num: int): Tracee {
    if t.arch == X86_64 then SetRegs(t, t.regs.(orig := num, select := num)) else t.(number := num)
  }

  function RetVal(arch: Arch, regs: Regs): int
    requires |regs.args| == 6
  {
    if arch == X86_64 then regs.select else regs.args[0]
  }

  /** One insertion: the tracee before its own call, and the remembered number of that call. */
  datatype Init = Init(tracee: Tracee, origSyscallNum: Option<int>)

  ghost function Inserted(s: Init, call: Call, ret: int): Init
    requires WellFormed(s.tracee) && |call.args| == 6
  {
    var entry := Trap(s.tracee);
    var orig := if s.origSyscallNum.Some? then s.origSyscallNum.value else SyscallNum(entry);
    var overridden := SetSyscallNum(SetRegs(entry, entry.regs.(args := call.args)), call.num);
    var rewound := SetRegs(Perform(overridden, ret), entry.regs.(pc := entry.regs.pc - InstructionSize(entry.arch)));
    Init(SetSyscallNum(rewound, orig), Some(orig))
  }

  ghost function AllInserted(s: Init, calls: seq<Call>, rets: seq<int>): (s': Init)
    requires WellFormed(s.tracee) && |calls| == |rets| && forall i :: 0 <= i < |calls| ==> |calls[i].args| == 6
    ensures WellFormed(s'.tracee)
    decreases |calls|
  {
    if calls == [] then s
    else
      var n := |calls| - 1;
      Inserted(AllInserted(s, calls[..n], rets[..n]), calls[n], rets[n])
  }

  /** The tracer's side of tracee initialisation. */
  class TraceeInit {
    var tracee: Tracee
    var origSyscallNum: Option<int>

    constructor (t: Tracee)
      ensures tracee == t && origSyscallNum == None
    {
      tracee, origSyscallNum := t, None;
    }

    ghost function Abs(): Init
      reads this
    {
      Init(tracee, origSyscallNum)
    }

    /** Turns the tracee's next call into the given one, then rewinds it to the instruction before its own call. */
    method InsertSyscall(call: Call, ret: int) returns (result: Regs)
      requires WellFormed(tracee) && |call.args| == 6
      modifies this
      ensures WellFormed(tracee) && Abs() == Inserted(old(Abs()), call, ret)
      ensures |result.args| == 6 && RetVal(tracee.arch, result) == ret
    {
      tracee := Trap(tracee);
      var origRegs := tracee.regs;
      var regs := origRegs;
      if origSyscallNum.None? {
        origSyscallNum := Some(SyscallNum(tracee));
      }
      regs := regs.(args := call.args);
      tracee := SetRegs(tracee, regs);
      tracee := SetSyscallNum(tracee, call.num);
      tracee := Perform(tracee, ret);
      result := tracee.regs;
      var newRegs := origRegs.(pc := origRegs.pc - InstructionSize(tracee.arch));
      tracee := SetRegs(tracee, newRegs);
      tracee := SetSyscallNum(tracee, origSyscallNum.value);
    }

    /** The initialisation sequence: any number of insertions, one after the other. */
    method InsertAll(calls: seq<Call>, rets: seq<int>)
      requires WellFormed(tracee) && |calls| == |rets|
      requires forall i :: 0 <= i < |calls| ==> |calls[i].args| == 6
      modifies this
      ensures Abs() == AllInserted(old(Abs()), calls, rets)
    {
      for i := 0 to |calls|
        invariant WellFormed(tracee) && Abs() == AllInserted(old(Abs()), calls[..i], rets[..i])
      {
        var _ := InsertSyscall(calls[i], rets[i]);
        assert calls[..i + 1][..i] == calls[..i] && rets[..i + 1][..i] == rets[..i];
      }
      assert calls[..|calls|] == calls && rets[..|calls|] == rets;
    }
  }

  /** Both tracees are at the same instruction with the same number, arguments and other registers. */
  ghost predicate AboutToCall(t: Tracee, t': Tracee) {
    && t'.arch == t.arch && t'.regs.select == t.regs.select && t'.regs.args == t.regs.args
    && t'.regs.pc == t.regs.pc && t'.regs.rest == t.regs.rest
    && (t.arch == Aarch64 ==> t'.regs == t.regs)
  }

  /** Each inserted call ran once and in order, and the tracee is back in front of its own call. */
  lemma {:induction false} InsertionsRunInOrder(t: Tracee, calls: seq<Call>, rets: seq<int>)
    requires WellFormed(t) && |calls| == |rets| && forall i :: 0 <= i < |calls| ==> |calls[i].args| == 6
    ensures var s := AllInserted(Init(t, None), calls, rets);
            && s.tracee.ran == t.ran + calls
            && AboutToCall(t, s.tracee)
            && (s.origSyscallNum.None? || s.origSyscallNum == Some(t.regs.select))
    decreases |calls|
  {
    if calls != [] {
      var n := |calls| - 1;
      InsertionsRunInOrder(t, calls[..n], rets[..n]);
      assert calls == calls[..n] + [calls[n]];
    }
  }

  /**
   * The interrupted call then runs once, with its own number, arguments and program counter: entry stop,
   * effect and exit state are those of a tracee that was never interfered with, but for the calls run before.
   */
  lemma {:induction false} InjectionTransparent(t: Tracee, calls: seq<Call>, rets: seq<int>, ret: int)
    requires WellFormed(t) && |calls| == |rets| && forall i :: 0 <= i < |calls| ==> |calls[i].args| == 6
    ensures var t' := AllInserted(Init(t, None), calls, rets).tracee;
            && WellFormed(Trap(t)) && WellFormed(Trap(t'))
            && Trap(t') == Trap(t).(ran := t.ran + calls)
            && Perform(Trap(t'), ret) ==
               Perform(Trap(t), ret).(ran := t.ran + calls + [Call(t.regs.select, t.regs.args)])
            && SyscallNum(Trap(t')) == t.regs.select
  {
    InsertionsRunInOrder(t, calls, rets);
  }
}
