/**
 * The table of system calls that pocker traces, compiled twice: into an index that the tracer looks
 * up, and into a classic BPF program that the kernel runs on every system call.
 */
module SeccompFilter {
  import opened Wrappers

  const MAX_RAW_SYSCALL_INFOS: nat := 512
  const MAX_SYSCALL_NUMBER: nat := 1024

  const BPF_LD: nat := 0
  const BPF_ABS: nat := 0x20
  const BPF_W: nat := 0
  const BPF_K: nat := 0
  const BPF_JMP: nat := 0x05
  const BPF_JEQ: nat := 0x10
  const BPF_RET: nat := 0x06
  const SECCOMP_SYSCALL_OFFSET: nat := 0
  const SECCOMP_RET_TRACE: nat := 0x7ff0_0000
  const SECCOMP_RET_ALLOW: nat := 0x7fff_0000

  datatype BpfFilter = BpfFilter(code: nat, jt: nat, jf: nat, k: nat)

  const LOAD: BpfFilter := BpfFilter(BPF_LD + BPF_W + BPF_ABS, 0, 0, SECCOMP_SYSCALL_OFFSET)
  const ALLOW: BpfFilter := BpfFilter(BPF_RET + BPF_K, 0, 0, SECCOMP_RET_ALLOW)
  const TRACE: BpfFilter := BpfFilter(BPF_RET + BPF_K, 0, 0, SECCOMP_RET_TRACE)

  /** The raw table: a slot is empty or holds the number of a traced system call. */
  type Table = seq<Option<nat>>

  datatype BuildError = SyscallNumberOutOfBound | TooManySyscalls

  // ---- The index ----

  /** The last slot of a system call; later slots replace earlier ones. */
  function LastSlot(raw: Table, num: nat): (r: Option<nat>)
    ensures r.Some? ==> r.value < |raw| && raw[r.value] == Some(num)
    ensures r.Some? ==> forall i :: r.value < i < |raw| ==> raw[i] != Some(num)
    ensures r.Some? <==> Some(num) in raw
  {
    if raw == [] then None
    else if raw[|raw| - 1] == Some(num) then Some(|raw| - 1)
    else LastSlot(raw[..|raw| - 1], num)
  }

  /** Every number below the limit leads to its last slot. */
  ghost predicate IsIndex(raw: Table, index: seq<Option<nat>>) {
    |index| == MAX_SYSCALL_NUMBER && forall num: nat :: num < MAX_SYSCALL_NUMBER ==> index[num] == LastSlot(raw, num)
  }

  ghost predicate NumbersInBound(raw: Table) {
    forall i :: 0 <= i < |raw| && raw[i].Some? ==> raw[i].value < MAX_SYSCALL_NUMBER
  }

  method BuildIndex(raw: Table) returns (r: Result<array<Option<nat>>, BuildError>)
    ensures r.Ok? <==> NumbersInBound(raw)
    ensures r.Ok? ==> IsIndex(raw, r.value[..])
  {
    var syscallToIndex := new Option<nat>[MAX_SYSCALL_NUMBER](_ => None);
    var index := 0;
    while index < |raw|
      invariant 0 <= index <= |raw| && NumbersInBound(raw[..index])
      invariant forall num: nat :: num < MAX_SYSCALL_NUMBER ==> syscallToIndex[num] == LastSlot(raw[..index], num)
    {
      assert raw[..index + 1][..index] == raw[..index];
      if raw[index].Some? {
        if raw[index].value >= MAX_SYSCALL_NUMBER {
          return Err(SyscallNumberOutOfBound);
        }
        syscallToIndex[raw[index].value] := Some(index);
      }
      index := index + 1;
    }
    assert raw[..|raw|] == raw;
    r := Ok(syscallToIndex);
  }

  /** The tracer's lookup: the entry of a system call, if it is traced. */
  function Get(raw: Table, index: seq<Option<nat>>, num: nat): Option<nat>
    requires IsIndex(raw, index)
  {
    if num >= MAX_SYSCALL_NUMBER then None
    else match index[num]
      case None => None
      case Some(i) => raw[i]
  }

  // ---- The filter program ----

  function Checks(raw: Table): seq<BpfFilter> {
    if raw == [] then []
    else (match raw[0]
          case None => []
          case Some(num) => [BpfFilter(BPF_JMP + BPF_JEQ + BPF_K, 0, 1, num), TRACE]) + Checks(raw[1..])
  }

  /** The checks from slot idx on, behind what was written before. */
  lemma {:induction false} ChecksOneMore(done: seq<BpfFilter>, raw: Table, idx: nat)
    requires idx < |raw|
    ensures raw[idx].None? ==> Checks(raw[idx..]) == Checks(raw[idx + 1..])
    ensures raw[idx].Some? ==>
              done + Checks(raw[idx..]) ==
              done + [BpfFilter(BPF_JMP + BPF_JEQ + BPF_K, 0, 1, raw[idx].value), TRACE] + Checks(raw[idx + 1..])
  {
    assert raw[idx..][0] == raw[idx] && raw[idx..][1..] == raw[idx + 1..];
    if raw[idx].None? {
      assert [] + Checks(raw[idx + 1..]) == Checks(raw[idx + 1..]);
    } else {
      var pair, later := [BpfFilter(BPF_JMP + BPF_JEQ + BPF_K, 0, 1, raw[idx].value), TRACE], Checks(raw[idx + 1..]);
      assert done + (pair + later) == done + pair + later;
    }
  }

  function Program(raw: Table): seq<BpfFilter> {
    [LOAD] + Checks(raw) + [ALLOW]
  }

  function CountSome(raw: Table): nat {
    if raw == [] then 0 else (if raw[0].Some? then 1 else 0) + CountSome(raw[1..])
  }

  lemma {:induction false} ChecksLength(raw: Table)
    ensures |Checks(raw)| == 2 * CountSome(raw) && CountSome(raw) <= |raw|
  {
    if raw != [] {
      ChecksLength(raw[1..]);
    }
  }

  /** The loop that fills the fixed-size filter array; the rest of the array allows everything. */
  method BuildFilters(raw: Table) returns (r: Result<(array<BpfFilter>, nat), BuildError>)
    ensures r.Err? <==> |raw| > MAX_RAW_SYSCALL_INFOS
    ensures r.Ok? ==>
              var (filters, actualLen) := r.value;
              && filters.Length == 2 * MAX_RAW_SYSCALL_INFOS + 2
              && actualLen == 2 * CountSome(raw) + 2 <= filters.Length
              && filters[..actualLen] == Program(raw)
  {
    if |raw| > MAX_RAW_SYSCALL_INFOS {
      return Err(TooManySyscalls);
    }
    var filters := new BpfFilter[2 * MAX_RAW_SYSCALL_INFOS + 2](_ => ALLOW);
    filters[0] := LOAD;
    var idx, writeIdx := 0, 1;
    assert raw[0..] == raw;
    assert [LOAD] + Checks(raw) == filters[..1] + Checks(raw);
    while idx < |raw|
      invariant 0 <= idx <= |raw| && 1 <= writeIdx <= 2 * idx + 1
      invariant filters[..writeIdx] + Checks(raw[idx..]) == [LOAD] + Checks(raw)
    {
      ChecksOneMore(filters[..writeIdx], raw, idx);
      if raw[idx].None? {
        idx := idx + 1;
        continue;
      }
      ghost var done := filters[..writeIdx];
      ghost var test := BpfFilter(BPF_JMP + BPF_JEQ + BPF_K, 0, 1, raw[idx].value);
      filters[writeIdx] := BpfFilter(BPF_JMP + BPF_JEQ + BPF_K, 0, 1, raw[idx].value);
      writeIdx := writeIdx + 1;
      filters[writeIdx] := TRACE;
      writeIdx := writeIdx + 1;
      assert filters[..writeIdx] == done + [test, TRACE];
      idx := idx + 1;
    }
    ChecksLength(raw);
    ghost var done := filters[..writeIdx];
    assert raw[idx..] == [] && done + [] == done;
    filters[writeIdx] := ALLOW;
    assert filters[..writeIdx + 1] == done + [ALLOW];
    r := Ok((filters, writeIdx + 1));
  }

  // ---- What the kernel does with it ----

  /** Classic BPF on the number of a system call; None if control leaves the program or an instruction is unknown. */
  function Run(program: seq<BpfFilter>, pc: nat, acc: nat, num: nat): Option<nat>
    decreases |program| - pc
  {
    if pc >= |program| then None
    else
      var f := program[pc];
      if f.code == BPF_LD + BPF_W + BPF_ABS then
        if f.k == SECCOMP_SYSCALL_OFFSET then Run(program, pc + 1, num, num) else None
      else if f.code == BPF_JMP + BPF_JEQ + BPF_K then
        Run(program, pc + 1 + (if acc == f.k then f.jt else f.jf), acc, num)
      else if f.code == BPF_RET + BPF_K then Some(f.k)
      else None
  }

  /** Running the checks for the remaining slots, behind any instructions already passed. */
  lemma {:induction false} RunChecks(before: seq<BpfFilter>, raw: Table, num: nat)
    ensures Run(before + Checks(raw) + [ALLOW], |before|, num, num) ==
            Some(if Some(num) in raw then SECCOMP_RET_TRACE else SECCOMP_RET_ALLOW)
    decreases |raw|
  {
    var program := before + Checks(raw) + [ALLOW];
    if raw != [] {
      var rest := raw[1..];
      if raw[0].None? {
        assert Checks(raw) == Checks(rest);
        RunChecks(before, rest, num);
      } else {
        var test := BpfFilter(BPF_JMP + BPF_JEQ + BPF_K, 0, 1, raw[0].value);
        assert program[|before|] == test && program[|before| + 1] == TRACE;
        if raw[0].value == num {
          assert Run(program, |before| + 1, num, num) == Some(SECCOMP_RET_TRACE);
        } else {
          var longer := before + [test, TRACE];
          assert program == longer + Checks(rest) + [ALLOW];
          RunChecks(longer, rest, num);
        }
      }
    }
  }

  /** The kernel traces exactly the calls that the tracer's lookup knows, and never leaves the program. */
  lemma {:induction false} FilterAgreesWithLookup(raw: Table, index: seq<Option<nat>>, num: nat)
    requires NumbersInBound(raw) && IsIndex(raw, index)
    ensures Run(Program(raw), 0, 0, num) ==
            Some(if Get(raw, index, num).Some? then SECCOMP_RET_TRACE else SECCOMP_RET_ALLOW)
    ensures Get(raw, index, num).Some? ==> Get(raw, index, num) == Some(num)
  {
    RunChecks([LOAD], raw, num);
    assert Program(raw)[0] == LOAD;
  }
}
