/**
 * The scratch area that pocker writes strings and argument vectors into during one system call, and
 * the expansion of an exec into the interpreter of the file, shebang by shebang.
 */
module ScratchArea {
  import opened Wrappers
  import opened Bytes
  import ArgvRebuild

  type Memory = nat -> Byte

  const ZONE: nat := STACK_SAFE_ZONE_SIZE

  /**
   * A shared mapping at `base` in the tracee, or the tracee's stack below `sp`. The kernel refuses to write
   * to the stack below the address `lowest`.
   */
  datatype Mode = Direct(base: nat) | Slow(sp: nat, lowest: nat)

  datatype ScratchError = OffsetTooBig | BufferOverflow | OffsetNotAligned | Underflow | WriteRefused | ArgvTooShort

  /** Something written: its address and its bytes, including padding. */
  datatype Block = Block(start: nat, bytes: seq<Byte>)

  /** Bytes as whole words; an extra zero word is added even when none is needed. */
  function Padded(bytes: seq<Byte>): (r: seq<Byte>)
    ensures |r| == WORD * (|bytes| / WORD + 1) && bytes <= r
  {
    bytes + Zeros(WORD * (|bytes| / WORD + 1) - |bytes|)
  }

  function Put(m: Memory, b: Block): Memory {
    (a: nat) => if b.start <= a < b.start + |b.bytes| then b.bytes[a - b.start] else m(a)
  }

  ghost predicate Readable(m: Memory, b: Block) {
    forall i :: 0 <= i < |b.bytes| ==> m(b.start + i) == b.bytes[i]
  }

  /** Only the bytes of the block have changed. */
  ghost predicate WroteOnly(m: Memory, m': Memory, b: Block) {
    forall a: nat :: a < b.start || b.start + |b.bytes| <= a ==> m'(a) == m(a)
  }

  ghost predicate Apart(b: Block, c: Block) {
    b.start + |b.bytes| <= c.start || c.start + |c.bytes| <= b.start
  }

  /** How far the offset can go. */
  function Limit(mode: Mode): nat {
    match mode
    case Direct(_) => ZONE
    case Slow(sp, _) => sp
  }

  /** The part of memory used up at a given offset: from the base up, or below the red zone of the stack down. */
  ghost predicate Inside(mode: Mode, offset: nat, b: Block) {
    match mode
    case Direct(base) => base <= b.start && b.start + |b.bytes| <= base + offset
    case Slow(sp, lowest) => lowest <= b.start && sp <= b.start + ZONE + offset && b.start + |b.bytes| + ZONE <= sp
  }

  /** The space that n bytes take up: as they are, or padded to whole words. */
  function Taken(mode: Mode, n: nat): nat {
    match mode
    case Direct(_) => n
    case Slow(_, _) => WORD * (n / WORD + 1)
  }

  /** Whether n bytes can be appended at an offset. */
  predicate HasSpace(mode: Mode, offset: nat, n: nat) {
    match mode
    case Direct(_) => offset < ZONE && offset + n <= ZONE
    case Slow(sp, lowest) => lowest + ZONE + offset + WORD * (n / WORD + 1) <= sp
  }

  /** Where they go: up from the base, or down from below the red zone of the stack. */
  function NextStart(mode: Mode, offset: nat, n: nat): nat
    requires HasSpace(mode, offset, n)
  {
    match mode
    case Direct(base) => base + offset
    case Slow(sp, _) => sp - ZONE - offset - WORD * (n / WORD + 1)
  }

  /** Whether two strings and a vector for `argv` old bytes can be appended one after the other. */
  predicate SpaceForElf(mode: Mode, offset: nat, interpreter: nat, program: nat, argv: nat) {
    var offset1 := offset + Taken(mode, interpreter + 1);
    && HasSpace(mode, offset, interpreter + 1)
    && HasSpace(mode, offset1, program + 1)
    && HasSpace(mode, offset1 + Taken(mode, program + 1), 2 * WORD + argv)
  }

  /** The same for a script, whose interpreter may have no argument. */
  predicate SpaceForScript(mode: Mode, offset: nat, interpreter: nat, argument: Option<nat>, argv: nat) {
    && SpaceForFront(mode, offset, interpreter, argument)
    && HasSpace(mode, offset + TakenByFront(mode, interpreter, argument), NewLength(argument, argv))
  }

  predicate SpaceForFront(mode: Mode, offset: nat, interpreter: nat, argument: Option<nat>) {
    && HasSpace(mode, offset, interpreter + 1)
    && (argument.Some? ==> HasSpace(mode, offset + Taken(mode, interpreter + 1), argument.value + 1))
  }

  function TakenByFront(mode: Mode, interpreter: nat, argument: Option<nat>): nat {
    Taken(mode, interpreter + 1) + if argument.Some? then Taken(mode, argument.value + 1) else 0
  }

  /** The length of the new vector, given that of the old one. */
  function NewLength(argument: Option<nat>, argv: nat): nat {
    (if argument.Some? then 3 else 2) * WORD + argv
  }

  function TakenByScript(mode: Mode, interpreter: nat, argument: Option<nat>, argv: nat): nat {
    TakenByFront(mode, interpreter, argument) + Taken(mode, NewLength(argument, argv))
  }

  class Scratch {
    const mode: Mode
    var offset: nat
    var memory: Memory
    /** Everything appended since the area was last reset. */
    ghost var blocks: seq<Block>

    /** All blocks of this system call are readable, and no two overlap. */
    ghost predicate Valid()
      reads this
    {
      && offset <= Limit(mode)
      && (mode.Slow? ==> offset % WORD == 0)
      && (forall i :: 0 <= i < |blocks| ==> Inside(mode, offset, blocks[i]) && Readable(memory, blocks[i]))
      && (forall i, j :: 0 <= i < j < |blocks| ==> Apart(blocks[i], blocks[j]))
    }

    constructor (mode: Mode, memory: Memory)
      ensures Valid() && this.mode == mode && blocks == [] && offset == 0
    {
      this.mode, this.memory, offset, blocks := mode, memory, 0, [];
    }

    /** At each system call entry the area is reused from its beginning. */
    method Reset()
      modifies this
      ensures Valid() && blocks == [] && offset == 0 && memory == old(memory)
    {
      offset, blocks := 0, [];
    }

    /** Appends behind everything written before, which stays as it is; the offset grows, or nothing changes. */
    method Append(bytes: seq<Byte>) returns (r: Result<nat, ScratchError>)
      requires Valid()
      modifies this
      ensures Valid()
      ensures r.Err? ==> r.error != ArgvTooShort && offset == old(offset) && blocks == old(blocks)
                         && memory == old(memory)
      ensures r.Ok? ==> |blocks| == |old(blocks)| + 1 && old(blocks) <= blocks
                        && blocks[|old(blocks)|].start == r.value && bytes <= blocks[|old(blocks)|].bytes
      ensures r.Ok? ==> WroteOnly(old(memory), memory, blocks[|old(blocks)|])
                        && blocks[|old(blocks)|].bytes == bytes + Zeros(Taken(mode, |bytes|) - |bytes|)
      ensures r.Ok? <==> HasSpace(mode, old(offset), |bytes|)
      ensures r.Ok? ==> r.value == NextStart(mode, old(offset), |bytes|)
                        && offset == old(offset) + Taken(mode, |bytes|) >= old(offset) + |bytes|
    {
      var b: Block;
      match mode {
        case Direct(base) =>
          if offset >= ZONE {
            return Err(OffsetTooBig);
          }
          if offset + |bytes| > ZONE {
            return Err(BufferOverflow);
          }
          b := Block(base + offset, bytes);
        case Slow(sp, lowest) =>
          if offset % WORD != 0 {
            return Err(OffsetNotAligned);
          }
          var words := Padded(bytes);
          var total := offset + ZONE + |words|;
          if sp < total {
            return Err(Underflow);
          }
          // Words are written upwards, so the first one fails and nothing is changed.
          if sp - total < lowest {
            return Err(WriteRefused);
          }
          b := Block(sp - total, words);
      }
      NewBlockApart(mode, offset, blocks, memory, b);
      memory := Put(memory, b);
      offset := offset + |b.bytes|;
      blocks := blocks + [b];
      assert b.bytes == bytes + Zeros(|b.bytes| - |bytes|);
      r := Ok(b.start);
    }
  }

  /** A block right behind the used part touches nothing that was written before. */
  lemma {:induction false} NewBlockApart(mode: Mode, offset: nat, blocks: seq<Block>, memory: Memory, b: Block)
    requires forall i :: 0 <= i < |blocks| ==> Inside(mode, offset, blocks[i]) && Readable(memory, blocks[i])
    requires match mode
             case Direct(base) => b.start == base + offset
             case Slow(sp, lowest) => lowest <= b.start && b.start + |b.bytes| + ZONE + offset == sp
    ensures forall i :: 0 <= i < |blocks| ==>
              && Apart(blocks[i], b) && Inside(mode, offset + |b.bytes|, blocks[i])
              && Readable(Put(memory, b), blocks[i])
    ensures Inside(mode, offset + |b.bytes|, b) && Readable(Put(memory, b), b)
  {
    forall i | 0 <= i < |blocks|
      ensures Apart(blocks[i], b) && Inside(mode, offset + |b.bytes|, blocks[i]) && Readable(Put(memory, b), blocks[i])
    {
      assert Inside(mode, offset, blocks[i]) && Readable(memory, blocks[i]);
    }
  }

  // ---- Expanding an exec ----

  /** What a translated path turns out to be. */
  datatype FileKind =
    | Missing
    | DynamicElf(interpreter: seq<Byte>, program: seq<Byte>)
    | StaticElf(onDisk: seq<Byte>)
    | Script(interpreter: seq<Byte>, argument: Option<seq<Byte>>)
    | Unsupported

  /** Reading from tracee memory, and the files on disk. */
  datatype World = World(
    path: (Memory, nat) -> seq<Byte>,
    argv: (Memory, nat) -> seq<Byte>,
    kind: seq<Byte> -> FileKind)

  /** The registers that an exec passes its path and argument vector in. */
  datatype Exec = Exec(arg0: nat, arg1: nat)

  function NativeBytes(n: nat, count: nat): (bs: seq<Byte>)
    ensures |bs| == count
  {
    if count == 0 then [] else [n % 256] + NativeBytes(n / 256, count - 1)
  }

  function Addresses(addresses: seq<nat>): seq<seq<Byte>> {
    if addresses == [] then [] else [NativeBytes(addresses[0], WORD)] + Addresses(addresses[1..])
  }

  /** The number that some bytes stand for, the lowest byte first. */
  function Decoded(bs: seq<Byte>): nat {
    if bs == [] then 0 else bs[0] + 256 * Decoded(bs[1..])
  }

  lemma {:induction false} DecodesBack(n: nat, count: nat)
    requires n < Pow256(count)
    ensures Decoded(NativeBytes(n, count)) == n && forall b :: b in NativeBytes(n, count) ==> b < 256
  {
    if count > 0 {
      DecodesBack(n / 256, count - 1);
      assert NativeBytes(n, count)[1..] == NativeBytes(n / 256, count - 1);
    }
  }

  lemma {:induction false} AddressAt(addresses: seq<nat>, i: nat)
    requires i < |addresses|
    ensures |Addresses(addresses)| == |addresses| && Addresses(addresses)[i] == NativeBytes(addresses[i], WORD)
  {
    if i > 0 {
      AddressAt(addresses[1..], i - 1);
    } else if |addresses| > 1 {
      AddressAt(addresses[1..], 0);
    }
  }

  function BytesAt(m: Memory, at: nat, n: nat): (bs: seq<Byte>)
    ensures |bs| == n && forall i :: 0 <= i < n ==> bs[i] == m(at + i)
  {
    if n == 0 then [] else BytesAt(m, at, n - 1) + [m(at + n - 1)]
  }

  /** The word that the tracee reads at an address. */
  function WordAt(m: Memory, at: nat): nat {
    Decoded(BytesAt(m, at, WORD))
  }

  /** The vector in memory: the given addresses word by word, then the old bytes without their first word, then null. */
  ghost predicate VectorAt(m: Memory, at: nat, addresses: seq<nat>, argv: seq<Byte>)
    requires |argv| >= WORD
  {
    && (forall i: nat :: i < |addresses| && addresses[i] < 0x1_0000_0000_0000_0000 ==>
          WordAt(m, at + WORD * i) == addresses[i])
    && Readable(m, Block(at + WORD * |addresses|, argv[WORD..] + Zeros(WORD)))
  }

  lemma {:induction false} VectorWritten(m: Memory, b: Block, addresses: seq<nat>, argv: seq<Byte>)
    requires Readable(m, b) && |argv| >= WORD && ArgvBytes(addresses, argv) <= b.bytes
    ensures VectorAt(m, b.start, addresses, argv)
  {
    var front, rest := ArgvRebuild.Flat(Addresses(addresses)), argv[WORD..] + Zeros(WORD);
    AddressesLength(addresses);
    ArgvRebuild.FlatLength(Addresses(addresses));
    assert ArgvBytes(addresses, argv) == front + rest;
    forall i: nat | i < |addresses| && addresses[i] < 0x1_0000_0000_0000_0000
      ensures WordAt(m, b.start + WORD * i) == addresses[i]
    {
      WordWritten(m, b, addresses, argv, i);
    }
    var tail := Block(b.start + |front|, rest);
    forall i | 0 <= i < |rest| ensures m(tail.start + i) == rest[i] {
      assert b.bytes[|front| + i] == (front + rest)[|front| + i];
    }
  }

  lemma {:induction false} AddressesLength(addresses: seq<nat>)
    ensures |Addresses(addresses)| == |addresses|
    ensures forall i :: 0 <= i < |addresses| ==> |Addresses(addresses)[i]| == WORD
  {
    if addresses != [] {
      AddressesLength(addresses[1..]);
    }
  }

  lemma {:induction false} WordWritten(m: Memory, b: Block, addresses: seq<nat>, argv: seq<Byte>, i: nat)
    requires Readable(m, b) && |argv| >= WORD && ArgvBytes(addresses, argv) <= b.bytes
    requires i < |addresses| && addresses[i] < 0x1_0000_0000_0000_0000
    ensures WordAt(m, b.start + WORD * i) == addresses[i]
  {
    WordBytes(addresses, argv, b.bytes, i);
    Pow256OfWord();
    NumberReadBack(m, b, WORD * i, addresses[i], WORD);
  }

  lemma {:induction false} NumberReadBack(m: Memory, b: Block, at: nat, n: nat, count: nat)
    requires Readable(m, b) && n < Pow256(count) && at + count <= |b.bytes|
    requires b.bytes[at..at + count] == NativeBytes(n, count)
    ensures Decoded(BytesAt(m, b.start + at, count)) == n
  {
    DecodesBack(n, count);
    BytesReadBack(m, b, at, NativeBytes(n, count));
  }

  lemma {:induction false} WordBytes(addresses: seq<nat>, argv: seq<Byte>, bytes: seq<Byte>, i: nat)
    requires |argv| >= WORD && ArgvBytes(addresses, argv) <= bytes && i < |addresses|
    ensures WORD * (i + 1) <= |bytes| && bytes[WORD * i..WORD * (i + 1)] == NativeBytes(addresses[i], WORD)
  {
    var ps := Addresses(addresses);
    var front, rest := ArgvRebuild.Flat(ps), argv[WORD..] + Zeros(WORD);
    AddressesLength(addresses);
    AddressAt(addresses, i);
    ArgvRebuild.FlatAt(ps, i);
    assert ArgvBytes(addresses, argv) == front + rest;
    FrontSlice(front, rest, bytes, WORD * i, WORD);
  }

  lemma {:induction false} FrontSlice(front: seq<Byte>, rest: seq<Byte>, whole: seq<Byte>, at: nat, n: nat)
    requires front + rest <= whole && at + n <= |front|
    ensures whole[at..at + n] == front[at..at + n]
  {
    assert forall k :: 0 <= k < |front| ==> whole[k] == (front + rest)[k] == front[k];
  }

  lemma {:induction false} BytesReadBack(m: Memory, b: Block, at: nat, w: seq<Byte>)
    requires Readable(m, b) && at + |w| <= |b.bytes| && b.bytes[at..at + |w|] == w
    ensures BytesAt(m, b.start + at, |w|) == w
  {
    forall k | 0 <= k < |w| ensures m(b.start + at + k) == w[k] {
      assert m(b.start + (at + k)) == b.bytes[at + k] == b.bytes[at..at + |w|][k];
    }
  }

  /** The given addresses, the old vector without its first pointer, and a null pointer. */
  function ArgvBytes(addresses: seq<nat>, argv: seq<Byte>): seq<Byte>
    requires |argv| >= WORD
  {
    ArgvRebuild.Flat(Addresses(addresses)) + argv[WORD..] + Zeros(WORD)
  }

  datatype Outcome = Execute(regs: Exec) | Skip

  /** An address other than null that a register can hold. */
  predicate Real(a: nat) {
    0 < a < 0x1_0000_0000_0000_0000
  }

  function Pow256(n: nat): nat {
    if n == 0 then 1 else 256 * Pow256(n - 1)
  }

  lemma {:induction false} Pow256OfWord()
    ensures Pow256(WORD) == 0x1_0000_0000_0000_0000
  {
    assert Pow256(4) == 0x1_0000_0000;
  }

  lemma {:induction false} NativeNonzero(n: nat, count: nat)
    requires 0 < n < Pow256(count)
    ensures ArgvRebuild.Lead(NativeBytes(n, count)) < count
  {
    if n % 256 == 0 {
      NativeNonzero(n / 256, count - 1);
      assert NativeBytes(n, count)[1..] == NativeBytes(n / 256, count - 1);
    }
  }

  lemma {:induction false} AddressesArePointers(addresses: seq<nat>)
    requires forall i :: 0 <= i < |addresses| ==> Real(addresses[i])
    ensures ArgvRebuild.Pointers(Addresses(addresses)) && |Addresses(addresses)| == |addresses|
  {
    if addresses != [] {
      assert Real(addresses[0]);
      Pow256OfWord();
      NativeNonzero(addresses[0], WORD);
      AddressesArePointers(addresses[1..]);
    }
  }

  /** A null-terminated vector, and whatever follows it. */
  function VectorBytes(v: seq<ArgvRebuild.Pointer>, rest: seq<Byte>): seq<Byte> {
    ArgvRebuild.Flat(v) + Zeros(WORD) + rest
  }

  ghost predicate HoldsVector(m: Memory, address: nat, v: seq<ArgvRebuild.Pointer>) {
    exists rest :: Readable(m, Block(address, VectorBytes(v, rest)))
  }

  /** Paths are read up to a zero byte, argument vectors up to a word of them, from whatever the memory holds. */
  ghost predicate Faithful(world: World) {
    forall m: Memory, b: Block :: Readable(m, b) ==>
      && (ArgvRebuild.Scan(b.bytes, 1, 0).Some? ==> world.path(m, b.start) == ArgvRebuild.Scan(b.bytes, 1, 0).value)
      && (ArgvRebuild.Scan(b.bytes, WORD, 0).Some? ==>
            world.argv(m, b.start) == ArgvRebuild.Scan(b.bytes, WORD, 0).value)
  }

  /** A string as it is read back. */
  function ReadBack(s: seq<Byte>): seq<Byte> {
    if s == [] || s[0] == 0 then [] else [s[0]] + ReadBack(s[1..])
  }

  /** It is read up to its first zero byte. */
  lemma {:induction false} ReadBackExactly(s: seq<Byte>)
    ensures var r := ReadBack(s); r <= s && 0 !in r && (|r| < |s| ==> s[|r|] == 0)
  {
    if s != [] && s[0] != 0 {
      ReadBackExactly(s[1..]);
      assert s == [s[0]] + s[1..];
    }
  }

  lemma {:induction false} ScanString(s: seq<Byte>)
    ensures ArgvRebuild.Scan(s + [0], 1, 0) == Some(ReadBack(s))
  {
    if s != [] && s[0] != 0 {
      ScanString(s[1..]);
      assert (s + [0])[1..] == s[1..] + [0];
    }
  }

  /** What one round for a script appends: the interpreter's path, its argument if any, and the new vector. */
  datatype Round = Round(interpreter: nat, argument: Option<nat>, vector: nat)

  /** The addresses that a round puts in front; the script's path is one of them. */
  function Front(r: Round, path: nat): seq<nat> {
    [r.interpreter] + (if r.argument.Some? then [r.argument.value] else []) + [path]
  }

  function NextVector(v: seq<ArgvRebuild.Pointer>, r: Round, path: nat): seq<ArgvRebuild.Pointer> {
    Addresses(Front(r, path)) + ArgvRebuild.KeptArgs(v)
  }

  function Length(argument: Option<seq<Byte>>): Option<nat> {
    if argument.Some? then Some(|argument.value|) else None
  }

  /** The blocks of an ELF file: its interpreter, the program, and a vector that starts with both. */
  ghost predicate ElfWritten(blocks: seq<Block>, n: nat, interpreter: seq<Byte>, program: seq<Byte>, argv: seq<Byte>,
                             regs: Exec)
  {
    && |blocks| == n + 3 && |argv| >= WORD
    && regs.arg0 == blocks[n].start && interpreter + [0] <= blocks[n].bytes
    && program + [0] <= blocks[n + 1].bytes
    && regs.arg1 == blocks[n + 2].start
    && ArgvBytes([blocks[n].start, blocks[n + 1].start], argv) <= blocks[n + 2].bytes
  }

  ghost predicate FrontWritten(blocks: seq<Block>, n: nat, interpreter: seq<Byte>, argument: Option<seq<Byte>>,
                               addresses: seq<nat>)
  {
    && |addresses| == (if argument.Some? then 2 else 1) && |blocks| == n + |addresses|
    && addresses[0] == blocks[n].start && interpreter + [0] <= blocks[n].bytes
    && (argument.Some? ==> addresses[1] == blocks[n + 1].start && argument.value + [0] <= blocks[n + 1].bytes)
  }

  ghost predicate RoundWritten(blocks: seq<Block>, n: nat, path: nat, argv: seq<Byte>, interpreter: seq<Byte>,
                               argument: Option<seq<Byte>>, r: Round)
  {
    && |blocks| == n + (if argument.Some? then 3 else 2)
    && r.interpreter == blocks[n].start && interpreter + [0] <= blocks[n].bytes
    && (argument.Some? <==> r.argument.Some?)
    && (argument.Some? ==> r.argument.value == blocks[n + 1].start && argument.value + [0] <= blocks[n + 1].bytes)
    && r.vector == blocks[|blocks| - 1].start && |argv| >= WORD
    && ArgvBytes(Front(r, path), argv) <= blocks[|blocks| - 1].bytes
  }

  lemma {:induction false} VectorBehindFront(blocks: seq<Block>, n: nat, interpreter: seq<Byte>,
                                             argument: Option<seq<Byte>>, front: seq<nat>, later: seq<Block>, path: nat,
                                             argv: seq<Byte>, r: Round)
    requires FrontWritten(blocks, n, interpreter, argument, front) && blocks <= later && |later| == |blocks| + 1
    requires r == Round(front[0], if argument.Some? then Some(front[1]) else None, later[|blocks|].start)
    requires |argv| >= WORD && ArgvBytes(Front(r, path), argv) <= later[|blocks|].bytes
    ensures RoundWritten(later, n, path, argv, interpreter, argument, r)
  {
    assert forall i :: 0 <= i < |blocks| ==> later[i] == blocks[i];
  }

  ghost predicate Appended(blocks: seq<Block>, address: nat, bytes: seq<Byte>) {
    exists i :: 0 <= i < |blocks| && blocks[i].start == address && bytes <= blocks[i].bytes
  }

  /** The end of an expansion, given the kind of file that the last round led to. */
  ghost predicate Ends(kind: FileKind, blocks: seq<Block>, m: Memory, regs: Exec, v: seq<ArgvRebuild.Pointer>,
                       outcome: Outcome)
  {
    match kind
    case Missing => outcome.Skip?
    case Unsupported => outcome.Skip?
    case Script(_, _) => false
    case StaticElf(onDisk) =>
      outcome.Execute? && Appended(blocks, outcome.regs.arg0, onDisk + [0]) && outcome.regs.arg1 == regs.arg1
    case DynamicElf(interpreter, program) =>
      && outcome.Execute? && Appended(blocks, outcome.regs.arg0, interpreter + [0])
      && WordAt(m, outcome.regs.arg1) == outcome.regs.arg0
      && exists a :: && Appended(blocks, a, program + [0]) && WordAt(m, outcome.regs.arg1 + WORD) == a
                     && HoldsVector(m, outcome.regs.arg1, Addresses([outcome.regs.arg0, a]) + ArgvRebuild.KeptArgs(v))
  }

  /**
   * The rounds in order, for the file at path p and the vector v: each script's interpreter is looked up next,
   * under the vector of interpreter, argument, script path and the arguments carried on.
   */
  ghost predicate Chain(world: World, blocks: seq<Block>, m: Memory, p: seq<Byte>, regs: Exec,
                        v: seq<ArgvRebuild.Pointer>, rounds: seq<Round>, outcome: Outcome)
    decreases |rounds|
  {
    var kind := world.kind(p);
    if rounds == [] then Ends(kind, blocks, m, regs, v, outcome)
    else
      var r := rounds[0];
      && kind.Script? && RoundReadable(kind, blocks, m, regs, v, r)
      && Chain(world, blocks, m, ReadBack(kind.interpreter), Exec(r.interpreter, r.vector),
               NextVector(v, r, regs.arg0), rounds[1..], outcome)
  }

  ghost predicate RoundReadable(kind: FileKind, blocks: seq<Block>, m: Memory, regs: Exec,
                                v: seq<ArgvRebuild.Pointer>, r: Round)
    requires kind.Script?
  {
    && Appended(blocks, r.interpreter, kind.interpreter + [0])
    && (kind.argument.Some? <==> r.argument.Some?)
    && (kind.argument.Some? ==> Appended(blocks, r.argument.value, kind.argument.value + [0]))
    && WordAt(m, r.vector) == r.interpreter
    && (if kind.argument.Some? then
          WordAt(m, r.vector + WORD) == r.argument.value && WordAt(m, r.vector + 2 * WORD) == regs.arg0
        else WordAt(m, r.vector + WORD) == regs.arg0)
    && HoldsVector(m, r.vector, NextVector(v, r, regs.arg0))
  }

  /** The exec's vector is v, and what is read is what the memory holds. */
  ghost predicate Sane(world: World, m: Memory, regs: Exec, v: seq<ArgvRebuild.Pointer>) {
    Faithful(world) && HoldsVector(m, regs.arg1, v) && ArgvRebuild.Pointers(v) && v != [] && Real(regs.arg0)
  }

  /** The scratch area lies in the address space, and not at null. */
  predicate RealMode(mode: Mode) {
    match mode
    case Direct(base) => 0 < base && Real(base + ZONE)
    case Slow(sp, lowest) => 0 < lowest && Real(sp)
  }

  /** No block from number n on starts at null or beyond the address space. */
  ghost predicate RealFrom(blocks: seq<Block>, n: nat) {
    forall i :: n <= i < |blocks| ==> Real(blocks[i].start)
  }

  lemma {:induction false} ArgvRead(world: World, m: Memory, regs: Exec, v: seq<ArgvRebuild.Pointer>)
    returns (rest: seq<Byte>)
    requires Sane(world, m, regs, v)
    ensures ArgvRebuild.Scan(VectorBytes(v, rest), WORD, 0) == Some(world.argv(m, regs.arg1))
    ensures |world.argv(m, regs.arg1)| >= WORD
  {
    rest :| Readable(m, Block(regs.arg1, VectorBytes(v, rest)));
    var n := ArgvRebuild.RebuiltBytes([], v, rest);
    var b := Block(regs.arg1, VectorBytes(v, rest));
    assert Readable(m, b);
  }

  /** A rebuilt vector in memory, in terms of the vector that was read. */
  lemma {:induction false} VectorRebuilt(world: World, m: Memory, regs: Exec, v: seq<ArgvRebuild.Pointer>,
                                         addresses: seq<nat>, m': Memory, b: Block)
    requires Sane(world, m, regs, v) && forall i :: 0 <= i < |addresses| ==> Real(addresses[i])
    requires Readable(m', b) && |world.argv(m, regs.arg1)| >= WORD
    requires ArgvBytes(addresses, world.argv(m, regs.arg1)) <= b.bytes
    ensures var next := Addresses(addresses) + ArgvRebuild.KeptArgs(v);
            HoldsVector(m', b.start, next) && ArgvRebuild.Pointers(next)
  {
    var next := Addresses(addresses) + ArgvRebuild.KeptArgs(v);
    var rest := ArgvRead(world, m, regs, v);
    AddressesArePointers(addresses);
    var n := ArgvRebuild.RebuiltBytes(Addresses(addresses), v, rest);
    LongerVector(next, n, b.bytes);
    var rest' :| b.bytes == VectorBytes(next, rest');
    assert b == Block(b.start, VectorBytes(next, rest'));
  }

  lemma {:induction false} LongerVector(v: seq<ArgvRebuild.Pointer>, n: nat, bytes: seq<Byte>)
    requires ArgvRebuild.Flat(v) + Zeros(WORD) + Zeros(n) <= bytes
    ensures exists rest :: bytes == VectorBytes(v, rest)
  {
    var front := ArgvRebuild.Flat(v) + Zeros(WORD);
    var rest := bytes[|front|..];
    assert bytes[..|front|] == (front + Zeros(n))[..|front|] == front;
    assert bytes == VectorBytes(v, rest);
  }

  lemma {:induction false} PathRead(world: World, m: Memory, b: Block, s: seq<Byte>)
    requires Faithful(world) && Readable(m, b) && s + [0] <= b.bytes
    ensures world.path(m, b.start) == ReadBack(s)
  {
    var c := Block(b.start, s + [0]);
    assert Readable(m, c);
    ScanString(s);
  }

  /** After a round the exec is in order again, for the next vector. */
  lemma {:induction false} RoundSane(world: World, m: Memory, regs: Exec, v: seq<ArgvRebuild.Pointer>,
                                     blocks: seq<Block>, n: nat, r: Round, m': Memory)
    requires world.kind(world.path(m, regs.arg0)).Script? && Sane(world, m, regs, v) && RealFrom(blocks, n)
    requires forall i :: n <= i < |blocks| ==> Readable(m', blocks[i])
    requires var kind := world.kind(world.path(m, regs.arg0));
             RoundWritten(blocks, n, regs.arg0, world.argv(m, regs.arg1), kind.interpreter, kind.argument, r)
    ensures Sane(world, m', Exec(r.interpreter, r.vector), NextVector(v, r, regs.arg0))
    ensures world.path(m', r.interpreter) == ReadBack(world.kind(world.path(m, regs.arg0)).interpreter)
  {
    var kind := world.kind(world.path(m, regs.arg0));
    assert Real(blocks[n].start);
    var last := blocks[|blocks| - 1];
    assert Readable(m', last) && Readable(m', blocks[n]);
    VectorRebuilt(world, m, regs, v, Front(r, regs.arg0), m', last);
    PathRead(world, m', blocks[n], kind.interpreter);
    AddressesArePointers(Front(r, regs.arg0));
  }

  /** The new vector of a round: the interpreter, its argument if any, the script's path, and the old arguments. */
  ghost predicate RoundVector(m: Memory, r: Round, path: nat, argv: seq<Byte>)
    requires |argv| >= WORD
  {
    match r.argument
    case None => VectorAt(m, r.vector, [r.interpreter, path], argv)
    case Some(a) => VectorAt(m, r.vector, [r.interpreter, a, path], argv)
  }

  lemma {:induction false} RoundVectorIs(m: Memory, r: Round, path: nat, argv: seq<Byte>)
    requires |argv| >= WORD && VectorAt(m, r.vector, Front(r, path), argv)
    ensures RoundVector(m, r, path, argv)
  {
    match r.argument
    case None => assert Front(r, path) == [r.interpreter, path];
    case Some(a) => assert Front(r, path) == [r.interpreter, a, path];
  }

  // ---- Enough room ----

  /** The bytes that can still be appended. */
  function Free(mode: Mode, offset: nat): int {
    match mode
    case Direct(_) => ZONE - offset
    case Slow(sp, lowest) => sp - ZONE - lowest - offset
  }

  /** A block of n bytes takes up less than a word more than that, or a word. */
  function Cost(n: nat): nat {
    n + WORD
  }

  lemma {:induction false} CostCovers(mode: Mode, offset: nat, n: nat)
    requires n > 0 && Free(mode, offset) >= Cost(n)
    ensures HasSpace(mode, offset, n) && Free(mode, offset + Taken(mode, n)) >= Free(mode, offset) - Cost(n)
  {
  }

  /** The file at path p leads through this many scripts to one that is none. */
  predicate EndsAfter(world: World, p: seq<Byte>, rounds: nat)
    decreases rounds
  {
    var kind := world.kind(p);
    if rounds == 0 then !kind.Script?
    else kind.Script? && EndsAfter(world, ReadBack(kind.interpreter), rounds - 1)
  }

  /** The bytes that suffice for the strings and vectors of such a chain, for a vector of `args` pointers. */
  function Budget(world: World, p: seq<Byte>, args: nat, rounds: nat): nat
    requires EndsAfter(world, p, rounds)
    decreases rounds
  {
    var argv := WORD * args + WORD;
    match world.kind(p)
    case Script(interpreter, argument) =>
      Cost(|interpreter| + 1) + (if argument.Some? then Cost(|argument.value| + 1) else 0) + Cost(3 * WORD + argv) +
      Budget(world, ReadBack(interpreter), args + 2, rounds - 1)
    case DynamicElf(interpreter, program) => Cost(|interpreter| + 1) + Cost(|program| + 1) + Cost(2 * WORD + argv)
    case StaticElf(onDisk) => Cost(|onDisk| + 1)
    case _ => 0
  }

  lemma {:induction false} FewerArgsCostLess(world: World, p: seq<Byte>, fewer: nat, args: nat, rounds: nat)
    requires EndsAfter(world, p, rounds) && fewer <= args
    ensures Budget(world, p, fewer, rounds) <= Budget(world, p, args, rounds)
    decreases rounds
  {
    if rounds > 0 {
      FewerArgsCostLess(world, ReadBack(world.kind(p).interpreter), fewer + 2, args + 2, rounds - 1);
    }
  }

  /** The room left is enough for the chain of scripts from path p, which has this many. */
  ghost predicate Suffices(world: World, p: seq<Byte>, args: nat, rounds: nat, mode: Mode, offset: nat) {
    EndsAfter(world, p, rounds) && Free(mode, offset) >= Budget(world, p, args, rounds)
  }

  /** An expansion with enough room for its chain of scripts succeeds. */
  ghost predicate Succeeds(world: World, m: Memory, regs: Exec, v: seq<ArgvRebuild.Pointer>, mode: Mode, offset: nat,
                           r: Result<Outcome, ScratchError>)
  {
    Sane(world, m, regs, v) && RealMode(mode) ==>
      forall rounds: nat :: Suffices(world, world.path(m, regs.arg0), |v|, rounds, mode, offset) ==> r.Ok?
  }

  lemma {:induction false} ArgvSize(world: World, m: Memory, regs: Exec, v: seq<ArgvRebuild.Pointer>)
    requires Sane(world, m, regs, v)
    ensures WORD <= |world.argv(m, regs.arg1)| < WORD * |v| + WORD
  {
    var rest := ArgvRead(world, m, regs, v);
    ArgvRebuild.ScanVector(v, rest, 0);
    ArgvRebuild.FlatLength(v[..ArgvRebuild.Reached(v, 0)]);
  }

  lemma {:induction false} ElfFits(mode: Mode, offset: nat, interpreter: nat, program: nat, argv: nat, most: nat)
    requires argv <= most
    requires Free(mode, offset) >= Cost(interpreter + 1) + Cost(program + 1) + Cost(2 * WORD + most)
    ensures SpaceForElf(mode, offset, interpreter, program, argv)
  {
    CostCovers(mode, offset, interpreter + 1);
    var offset1 := offset + Taken(mode, interpreter + 1);
    CostCovers(mode, offset1, program + 1);
    CostCovers(mode, offset1 + Taken(mode, program + 1), 2 * WORD + argv);
  }

  lemma {:induction false} ScriptFits(mode: Mode, offset: nat, interpreter: nat, argument: Option<nat>, argv: nat,
                                      most: nat, later: nat)
    requires argv <= most
    requires Free(mode, offset) >=
             Cost(interpreter + 1) + (if argument.Some? then Cost(argument.value + 1) else 0) +
             Cost(3 * WORD + most) + later
    ensures SpaceForScript(mode, offset, interpreter, argument, argv)
    ensures Free(mode, offset + TakenByScript(mode, interpreter, argument, argv)) >= later
  {
    CostCovers(mode, offset, interpreter + 1);
    var offset1 := offset + Taken(mode, interpreter + 1);
    match argument
    case None =>
      CostCovers(mode, offset1, 2 * WORD + argv);
    case Some(n) =>
      CostCovers(mode, offset1, n + 1);
      CostCovers(mode, offset1 + Taken(mode, n + 1), 3 * WORD + argv);
  }

  /** The last file of a chain. */
  lemma {:induction false} LastRoundSucceeds(world: World, m: Memory, regs: Exec, v: seq<ArgvRebuild.Pointer>,
                                             mode: Mode, offset: nat, r: Result<Outcome, ScratchError>)
    requires match world.kind(world.path(m, regs.arg0))
             case StaticElf(onDisk) => HasSpace(mode, offset, |onDisk| + 1) ==> r.Ok?
             case DynamicElf(interpreter, program) =>
               var argv := world.argv(m, regs.arg1);
               |argv| >= WORD && SpaceForElf(mode, offset, |interpreter|, |program|, |argv|) ==> r.Ok?
             case _ => false
    ensures Succeeds(world, m, regs, v, mode, offset, r)
  {
    var p := world.path(m, regs.arg0);
    if Sane(world, m, regs, v) && EndsAfter(world, p, 0) && Free(mode, offset) >= Budget(world, p, |v|, 0) {
      ArgvSize(world, m, regs, v);
      match world.kind(p)
      case StaticElf(onDisk) => CostCovers(mode, offset, |onDisk| + 1);
      case DynamicElf(i, e) =>
        ElfFits(mode, offset, |i|, |e|, |world.argv(m, regs.arg1)|, WORD * |v| + WORD);
    }
  }

  /** With enough room for the chain, a round for a script has room, and leaves enough for the others. */
  lemma {:induction false} RoundFits(world: World, m: Memory, regs: Exec, v: seq<ArgvRebuild.Pointer>, mode: Mode,
                                     offset: nat)
    requires world.kind(world.path(m, regs.arg0)).Script?
    ensures var p, argv := world.path(m, regs.arg0), |world.argv(m, regs.arg1)|;
            var kind := world.kind(p);
            Sane(world, m, regs, v) ==>
              forall rounds: nat :: Suffices(world, p, |v|, rounds, mode, offset) ==>
                  && argv >= WORD && SpaceForScript(mode, offset, |kind.interpreter|, Length(kind.argument), argv)
                  && rounds > 0 && EndsAfter(world, ReadBack(kind.interpreter), rounds - 1)
                  && Free(mode, offset + TakenByScript(mode, |kind.interpreter|, Length(kind.argument), argv)) >=
                     Budget(world, ReadBack(kind.interpreter), |v| + 2, rounds - 1)
  {
    var p, argv := world.path(m, regs.arg0), |world.argv(m, regs.arg1)|;
    var kind := world.kind(p);
    if Sane(world, m, regs, v) {
      ArgvSize(world, m, regs, v);
      forall rounds: nat | Suffices(world, p, |v|, rounds, mode, offset)
        ensures argv >= WORD && SpaceForScript(mode, offset, |kind.interpreter|, Length(kind.argument), argv)
        ensures rounds > 0 && EndsAfter(world, ReadBack(kind.interpreter), rounds - 1)
        ensures Free(mode, offset + TakenByScript(mode, |kind.interpreter|, Length(kind.argument), argv)) >=
                Budget(world, ReadBack(kind.interpreter), |v| + 2, rounds - 1)
      {
        ScriptFits(mode, offset, |kind.interpreter|, Length(kind.argument), argv, WORD * |v| + WORD,
                   Budget(world, ReadBack(kind.interpreter), |v| + 2, rounds - 1));
      }
    }
  }

  lemma {:induction false} SufficesNext(world: World, m: Memory, regs: Exec, v: seq<ArgvRebuild.Pointer>, mode: Mode,
                                        offset: nat, rounds: nat, args: nat)
    requires Sane(world, m, regs, v) && world.kind(world.path(m, regs.arg0)).Script? && args <= |v| + 2
    requires Suffices(world, world.path(m, regs.arg0), |v|, rounds, mode, offset)
    ensures var kind := world.kind(world.path(m, regs.arg0));
            var taken := TakenByScript(mode, |kind.interpreter|, Length(kind.argument), |world.argv(m, regs.arg1)|);
            rounds > 0 && Suffices(world, ReadBack(kind.interpreter), args, rounds - 1, mode, offset + taken)
  {
    RoundFits(world, m, regs, v, mode, offset);
    FewerArgsCostLess(world, ReadBack(world.kind(world.path(m, regs.arg0)).interpreter), args, |v| + 2, rounds - 1);
  }

  lemma {:induction false} SucceedsOneMore(world: World, m: Memory, regs: Exec, v: seq<ArgvRebuild.Pointer>, mode: Mode,
                                           offset: nat, r: Round, m': Memory, offset': nat,
                                           result: Result<Outcome, ScratchError>)
    requires Sane(world, m, regs, v) && RealMode(mode) && world.kind(world.path(m, regs.arg0)).Script?
    requires var kind := world.kind(world.path(m, regs.arg0));
             && offset' == offset + TakenByScript(mode, |kind.interpreter|, Length(kind.argument),
                                                  |world.argv(m, regs.arg1)|)
             && world.path(m', r.interpreter) == ReadBack(kind.interpreter)
    requires var regs', v' := Exec(r.interpreter, r.vector), NextVector(v, r, regs.arg0);
             Sane(world, m', regs', v') && Succeeds(world, m', regs', v', mode, offset', result)
    ensures Succeeds(world, m, regs, v, mode, offset, result)
  {
    var p := world.path(m, regs.arg0);
    var next, v' := ReadBack(world.kind(p).interpreter), NextVector(v, r, regs.arg0);
    AddressesLength(Front(r, regs.arg0));
    assert |v'| <= |v| + 2;
    forall rounds: nat | Suffices(world, p, |v|, rounds, mode, offset)
      ensures result.Ok?
    {
      SufficesNext(world, m, regs, v, mode, offset, rounds, |v'|);
    }
  }

  lemma {:induction false} TwoWords(m: Memory, b: Block, first: nat, second: nat, argv: seq<Byte>)
    requires Readable(m, b) && |argv| >= WORD && ArgvBytes([first, second], argv) <= b.bytes
    requires Real(first) && Real(second)
    ensures WordAt(m, b.start) == first && WordAt(m, b.start + WORD) == second
  {
    var addresses := [first, second];
    WordWritten(m, b, addresses, argv, 0);
    WordWritten(m, b, addresses, argv, 1);
  }

  /** The words of a script's vector: interpreter, argument, script path. */
  lemma {:induction false} FrontWords(m: Memory, b: Block, r: Round, path: nat, argv: seq<Byte>)
    requires Readable(m, b) && |argv| >= WORD && ArgvBytes(Front(r, path), argv) <= b.bytes
    requires Real(r.interpreter) && Real(path) && (r.argument.Some? ==> Real(r.argument.value))
    ensures WordAt(m, b.start) == r.interpreter
    ensures if r.argument.Some? then
              WordAt(m, b.start + WORD) == r.argument.value && WordAt(m, b.start + 2 * WORD) == path
            else WordAt(m, b.start + WORD) == path
  {
    var front := Front(r, path);
    WordWritten(m, b, front, argv, 0);
    WordWritten(m, b, front, argv, 1);
    if r.argument.Some? {
      WordWritten(m, b, front, argv, 2);
    }
  }

  lemma {:induction false} StringsStay(blocks: seq<Block>, n: nat, path: nat, argv: seq<Byte>, interpreter: seq<Byte>,
                                       argument: Option<seq<Byte>>, r: Round, later: seq<Block>)
    requires RoundWritten(blocks, n, path, argv, interpreter, argument, r) && blocks <= later
    ensures Appended(later, r.interpreter, interpreter + [0])
    ensures argument.Some? ==> Appended(later, r.argument.value, argument.value + [0])
  {
    assert later[n] == blocks[n];
    if argument.Some? {
      assert later[n + 1] == blocks[n + 1];
    }
  }

  lemma {:induction false} FrontReal(blocks: seq<Block>, n: nat, path: nat, argv: seq<Byte>, interpreter: seq<Byte>,
                                     argument: Option<seq<Byte>>, r: Round)
    requires RoundWritten(blocks, n, path, argv, interpreter, argument, r) && RealFrom(blocks, n) && Real(path)
    ensures Real(r.interpreter) && (r.argument.Some? ==> Real(r.argument.value))
    ensures forall i :: 0 <= i < |Front(r, path)| ==> Real(Front(r, path)[i])
  {
    assert Real(blocks[n].start);
    if argument.Some? {
      assert Real(blocks[n + 1].start);
    }
  }

  lemma {:induction false} RoundReadableLater(world: World, m: Memory, regs: Exec, v: seq<ArgvRebuild.Pointer>, n: nat,
                                              blocks: seq<Block>, r: Round, later: seq<Block>, m': Memory)
    requires RealFrom(blocks, n) && Sane(world, m, regs, v) && world.kind(world.path(m, regs.arg0)).Script?
    requires var kind := world.kind(world.path(m, regs.arg0));
             RoundWritten(blocks, n, regs.arg0, world.argv(m, regs.arg1), kind.interpreter, kind.argument, r)
    requires blocks <= later && Readable(m', later[|blocks| - 1])
    ensures RoundReadable(world.kind(world.path(m, regs.arg0)), later, m', regs, v, r)
  {
    var kind, argv := world.kind(world.path(m, regs.arg0)), world.argv(m, regs.arg1);
    var last := blocks[|blocks| - 1];
    assert later[|blocks| - 1] == last;
    StringsStay(blocks, n, regs.arg0, argv, kind.interpreter, kind.argument, r, later);
    FrontReal(blocks, n, regs.arg0, argv, kind.interpreter, kind.argument, r);
    VectorRebuilt(world, m, regs, v, Front(r, regs.arg0), m', last);
    FrontWords(m', last, r, regs.arg0, argv);
  }

  class Expander {
    const area: Scratch
    const world: World

    constructor (area: Scratch, world: World)
      ensures this.area == area && this.world == world
    {
      this.area, this.world := area, world;
    }

    /** Appends a zero-terminated string. */
    method AppendString(s: seq<Byte>) returns (r: Result<nat, ScratchError>)
      requires area.Valid()
      modifies area
      ensures area.Valid() && r != Err(ArgvTooShort)
      ensures r.Err? ==> area.blocks == old(area.blocks)
      ensures r.Ok? ==> && |area.blocks| == |old(area.blocks)| + 1 && old(area.blocks) <= area.blocks
                        && area.blocks[|old(area.blocks)|].start == r.value
                        && s + [0] <= area.blocks[|old(area.blocks)|].bytes
      ensures r.Ok? <==> HasSpace(area.mode, old(area.offset), |s| + 1)
      ensures r.Ok? ==> area.offset == old(area.offset) + Taken(area.mode, |s| + 1) > old(area.offset)
    {
      r := area.Append(s + [0]);
    }

    /** Appends a rebuilt argument vector that starts with the given addresses. */
    method AppendArgv(addresses: seq<nat>, argv: seq<Byte>) returns (r: Result<nat, ScratchError>)
      requires area.Valid() && |argv| >= WORD
      modifies area
      ensures area.Valid() && old(area.blocks) <= area.blocks && area.offset >= old(area.offset)
      ensures r != Err(ArgvTooShort)
      ensures r.Ok? ==> && |area.blocks| == |old(area.blocks)| + 1 && area.blocks[|area.blocks| - 1].start == r.value
                        && ArgvBytes(addresses, argv) <= area.blocks[|area.blocks| - 1].bytes
                        && VectorAt(area.memory, r.value, addresses, argv)
      ensures r.Ok? <==> HasSpace(area.mode, old(area.offset), WORD * |addresses| + |argv|)
      ensures r.Ok? ==> area.offset == old(area.offset) + Taken(area.mode, WORD * |addresses| + |argv|)
    {
      var newArgv := ArgvRebuild.Rebuild(Addresses(addresses), argv);
      AddressesLength(addresses);
      ArgvRebuild.FlatLength(Addresses(addresses));
      r := area.Append(newArgv);
      if r.Ok? {
        VectorWritten(area.memory, area.blocks[|area.blocks| - 1], addresses, argv);
      }
    }

    /**
     * Rewrites an exec to run the interpreter of the file, if it has one. Rounds of shebangs end for all
     * files, because each of them uses up scratch space; on the way nothing written earlier is overwritten.
     * If the exec passes the vector v, the result follows the chain of scripts, whose rounds are returned.
     */
    method Expand(regs: Exec, ghost v: seq<ArgvRebuild.Pointer>)
      returns (r: Result<Outcome, ScratchError>, ghost rounds: seq<Round>)
      requires area.Valid()
      modifies area
      ensures area.Valid() && old(area.blocks) <= area.blocks
      ensures var kind := world.kind(world.path(old(area.memory), regs.arg0));
              && (kind.Missing? || kind.Unsupported? ==> r == Ok(Skip) && area.blocks == old(area.blocks))
              && (kind.StaticElf? && r.Ok? ==>
                    && |area.blocks| == |old(area.blocks)| + 1
                    && kind.onDisk + [0] <= area.blocks[|old(area.blocks)|].bytes
                    && r.value == Execute(regs.(arg0 := area.blocks[|old(area.blocks)|].start)))
      ensures (forall p :: world.kind(p).Script?) ==> r.Err?
      ensures r.Ok? ==> RunsNew(|old(area.blocks)|, r.value)
      ensures Followed(old(area.memory), regs, v, r, rounds)
      ensures Succeeds(world, old(area.memory), regs, v, area.mode, old(area.offset), r)
      decreases Limit(area.mode) - area.offset, 1
    {
      var path := world.path(area.memory, regs.arg0);
      var argv := world.argv(area.memory, regs.arg1);
      match world.kind(path) {
        case Missing => r, rounds := Ok(Skip), [];
        case Unsupported => r, rounds := Ok(Skip), [];
        case StaticElf(onDisk) => r, rounds := ExpandStatic(regs, v, onDisk);
        case DynamicElf(interpreter, program) => r, rounds := ExpandDynamic(regs, v, argv, interpreter, program);
        case Script(interpreter, argument) => r, rounds := ExpandShebang(regs, v, argv, interpreter, argument);
      }
    }

    method ExpandStatic(regs: Exec, ghost v: seq<ArgvRebuild.Pointer>, onDisk: seq<Byte>)
      returns (r: Result<Outcome, ScratchError>, ghost rounds: seq<Round>)
      requires area.Valid() && world.kind(world.path(area.memory, regs.arg0)) == StaticElf(onDisk)
      modifies area
      ensures area.Valid() && old(area.blocks) <= area.blocks
      ensures r.Ok? ==> && |area.blocks| == |old(area.blocks)| + 1
                        && onDisk + [0] <= area.blocks[|old(area.blocks)|].bytes
                        && r.value == Execute(regs.(arg0 := area.blocks[|old(area.blocks)|].start))
      ensures Followed(old(area.memory), regs, v, r, rounds)
      ensures Succeeds(world, old(area.memory), regs, v, area.mode, old(area.offset), r)
    {
      rounds := [];
      ghost var m, offset := area.memory, area.offset;
      var addr := AppendString(onDisk);
      r := if addr.Err? then Err(addr.error) else Ok(Execute(regs.(arg0 := addr.value)));
      LastRoundSucceeds(world, m, regs, v, area.mode, offset, r);
    }

    method ExpandDynamic(regs: Exec, ghost v: seq<ArgvRebuild.Pointer>, argv: seq<Byte>, interpreter: seq<Byte>,
                         program: seq<Byte>)
      returns (r: Result<Outcome, ScratchError>, ghost rounds: seq<Round>)
      requires area.Valid() && world.kind(world.path(area.memory, regs.arg0)) == DynamicElf(interpreter, program)
      requires argv == world.argv(area.memory, regs.arg1)
      modifies area
      ensures area.Valid() && old(area.blocks) <= area.blocks
      ensures r.Ok? ==> RunsNew(|old(area.blocks)|, r.value)
      ensures Followed(old(area.memory), regs, v, r, rounds)
      ensures Succeeds(world, old(area.memory), regs, v, area.mode, old(area.offset), r)
    {
      rounds := [];
      ghost var m, n, offset := area.memory, |area.blocks|, area.offset;
      if Sane(world, m, regs, v) {
        ArgvSize(world, m, regs, v);
      }
      r := ExpandElf(regs, argv, interpreter, program);
      if r.Ok? && Sane(world, m, regs, v) && RealMode(area.mode) {
        BlocksReal();
        ElfEnds(m, regs, v, n, r.value.regs);
        assert Chain(world, area.blocks, area.memory, world.path(m, regs.arg0), regs, v, [], r.value);
      }
      LastRoundSucceeds(world, m, regs, v, area.mode, offset, r);
    }

    /** The new program is a block behind the first n. */
    ghost predicate RunsNew(n: nat, outcome: Outcome)
      reads area
    {
      outcome.Execute? ==> exists i :: n <= i < |area.blocks| && area.blocks[i].start == outcome.regs.arg0
    }

    /** For a readable vector v the result follows the chain of scripts, and the vector is never too short. */
    ghost predicate Followed(m: Memory, regs: Exec, v: seq<ArgvRebuild.Pointer>,
                             r: Result<Outcome, ScratchError>, rounds: seq<Round>)
      reads area
    {
      Sane(world, m, regs, v) && RealMode(area.mode) ==>
        && r != Err(ArgvTooShort)
        && (r.Ok? ==> Chain(world, area.blocks, area.memory, world.path(m, regs.arg0), regs, v, rounds, r.value))
    }

    /** The case of a script: one round, and then the interpreter is expanded in turn. */
    method ExpandShebang(regs: Exec, ghost v: seq<ArgvRebuild.Pointer>, argv: seq<Byte>, interpreter: seq<Byte>,
                         argument: Option<seq<Byte>>)
      returns (r: Result<Outcome, ScratchError>, ghost rounds: seq<Round>)
      requires area.Valid() && world.kind(world.path(area.memory, regs.arg0)) == Script(interpreter, argument)
      requires argv == world.argv(area.memory, regs.arg1)
      modifies area
      ensures area.Valid() && old(area.blocks) <= area.blocks
      ensures (forall p :: world.kind(p).Script?) ==> r.Err?
      ensures r.Ok? ==> RunsNew(|old(area.blocks)|, r.value)
      ensures Followed(old(area.memory), regs, v, r, rounds)
      ensures Succeeds(world, old(area.memory), regs, v, area.mode, old(area.offset), r)
      decreases Limit(area.mode) - area.offset, 0
    {
      rounds := [];
      ghost var m, n, offset := area.memory, |area.blocks|, area.offset;
      if Sane(world, m, regs, v) {
        ArgvSize(world, m, regs, v);
      }
      var next, round := ExpandScript(regs, argv, interpreter, argument);
      if next.Err? {
        r := Err(next.error);
        RoundFits(world, m, regs, v, area.mode, offset);
        return;
      }
      ghost var offset' := area.offset;
      ghost var m', blocks, v' := area.memory, area.blocks, NextVector(v, round, regs.arg0);
      if Sane(world, m, regs, v) && RealMode(area.mode) {
        BlocksReal();
        RoundSane(world, m, regs, v, blocks, n, round, m');
      }
      r, rounds := Expand(next.value, v');
      if Sane(world, m, regs, v) && RealMode(area.mode) {
        ChainOneMore(m, regs, v, n, blocks, round, m', r, rounds);
        SucceedsOneMore(world, m, regs, v, area.mode, offset, round, m', offset', r);
      }
      rounds := [round] + rounds;
    }

    lemma {:induction false} BlocksReal()
      requires area.Valid() && RealMode(area.mode)
      ensures RealFrom(area.blocks, 0)
    {
      forall i | 0 <= i < |area.blocks| ensures Real(area.blocks[i].start) {
        assert Inside(area.mode, area.offset, area.blocks[i]);
      }
    }

    /** A round in front of a chain. */
    lemma {:induction false} ChainOneMore(m: Memory, regs: Exec, v: seq<ArgvRebuild.Pointer>, n: nat,
                                          blocks: seq<Block>, r: Round, m': Memory,
                                          result: Result<Outcome, ScratchError>, rounds: seq<Round>)
      requires area.Valid() && blocks <= area.blocks && n <= |blocks| && RealMode(area.mode)
      requires Sane(world, m, regs, v) && world.kind(world.path(m, regs.arg0)).Script?
      requires var kind := world.kind(world.path(m, regs.arg0));
               && RoundWritten(blocks, n, regs.arg0, world.argv(m, regs.arg1), kind.interpreter, kind.argument, r)
               && world.path(m', r.interpreter) == ReadBack(kind.interpreter)
      requires var regs', v' := Exec(r.interpreter, r.vector), NextVector(v, r, regs.arg0);
               Sane(world, m', regs', v') && Followed(m', regs', v', result, rounds)
      ensures Followed(m, regs, v, result, [r] + rounds)
    {
      BlocksReal();
      assert forall i :: 0 <= i < |blocks| ==> area.blocks[i] == blocks[i];
      assert RealFrom(blocks, n);
      RoundStays(m, regs, v, n, blocks, r);
      assert ([r] + rounds)[1..] == rounds;
    }

    method ExpandElf(regs: Exec, argv: seq<Byte>, interpreter: seq<Byte>, program: seq<Byte>)
      returns (r: Result<Outcome, ScratchError>)
      requires area.Valid()
      modifies area
      ensures area.Valid() && old(area.blocks) <= area.blocks
      ensures r == Err(ArgvTooShort) ==> |argv| < WORD
      ensures r.Ok? ==> && r.value.Execute?
                        && ElfWritten(area.blocks, |old(area.blocks)|, interpreter, program, argv, r.value.regs)
                        && VectorAt(area.memory, r.value.regs.arg1,
                                    [r.value.regs.arg0, area.blocks[|old(area.blocks)| + 1].start], argv)
      ensures r.Ok? <==>
              |argv| >= WORD && SpaceForElf(area.mode, old(area.offset), |interpreter|, |program|, |argv|)
    {
      var interpAddr := AppendString(interpreter);
      if interpAddr.Err? {
        return Err(interpAddr.error);
      }
      var elfAddr := AppendString(program);
      if elfAddr.Err? {
        return Err(elfAddr.error);
      }
      if |argv| < WORD {
        return Err(ArgvTooShort);
      }
      var argvAddr := AppendArgv([interpAddr.value, elfAddr.value], argv);
      if argvAddr.Err? {
        return Err(argvAddr.error);
      }
      r := Ok(Execute(Exec(interpAddr.value, argvAddr.value)));
    }

    /** What an expansion to an ELF interpreter wrote, in terms of the vector that was read. */
    lemma {:induction false} ElfEnds(m: Memory, regs: Exec, v: seq<ArgvRebuild.Pointer>, n: nat, regs': Exec)
      requires area.Valid()
      requires Sane(world, m, regs, v) && RealFrom(area.blocks, n)
      requires world.kind(world.path(m, regs.arg0)).DynamicElf? && |world.argv(m, regs.arg1)| >= WORD
      requires var kind := world.kind(world.path(m, regs.arg0));
               ElfWritten(area.blocks, n, kind.interpreter, kind.program, world.argv(m, regs.arg1), regs')
      ensures Ends(world.kind(world.path(m, regs.arg0)), area.blocks, area.memory, regs, v, Execute(regs'))
    {
      var kind := world.kind(world.path(m, regs.arg0));
      var a := area.blocks[n + 1].start;
      VectorRebuilt(world, m, regs, v, [regs'.arg0, a], area.memory, area.blocks[n + 2]);
      TwoWords(area.memory, area.blocks[n + 2], regs'.arg0, a, world.argv(m, regs.arg1));
      assert Appended(area.blocks, regs'.arg0, kind.interpreter + [0]);
      assert Appended(area.blocks, a, kind.program + [0]);
    }

    /** What a round wrote stays in place until the end. */
    lemma {:induction false} RoundStays(m: Memory, regs: Exec, v: seq<ArgvRebuild.Pointer>, n: nat, blocks: seq<Block>,
                                        r: Round)
      requires area.Valid() && blocks <= area.blocks && RealFrom(blocks, n) && Sane(world, m, regs, v)
      requires world.kind(world.path(m, regs.arg0)).Script?
      requires var kind := world.kind(world.path(m, regs.arg0));
               RoundWritten(blocks, n, regs.arg0, world.argv(m, regs.arg1), kind.interpreter, kind.argument, r)
      ensures RoundReadable(world.kind(world.path(m, regs.arg0)), area.blocks, area.memory, regs, v, r)
    {
      assert Readable(area.memory, area.blocks[|blocks| - 1]);
      RoundReadableLater(world, m, regs, v, n, blocks, r, area.blocks, area.memory);
    }

    /** One round for a script: the interpreter's path, its argument if any, and the new argument vector. */
    method ExpandScript(regs: Exec, argv: seq<Byte>, interpreter: seq<Byte>, argument: Option<seq<Byte>>)
      returns (r: Result<Exec, ScratchError>, ghost round: Round)
      requires area.Valid()
      modifies area
      ensures area.Valid() && old(area.blocks) <= area.blocks
      ensures r == Err(ArgvTooShort) ==> |argv| < WORD
      ensures r.Ok? ==> && area.offset > old(area.offset) && r.value == Exec(round.interpreter, round.vector)
                        && RoundWritten(area.blocks, |old(area.blocks)|, regs.arg0, argv, interpreter, argument, round)
                        && RoundVector(area.memory, round, regs.arg0, argv)
      ensures r.Ok? <==>
              |argv| >= WORD && SpaceForScript(area.mode, old(area.offset), |interpreter|, Length(argument), |argv|)
      ensures r.Ok? ==>
                area.offset == old(area.offset) + TakenByScript(area.mode, |interpreter|, Length(argument), |argv|)
    {
      round := Round(0, None, 0);
      ghost var n := |area.blocks|;
      var front := AppendFront(interpreter, argument);
      if front.Err? {
        return Err(front.error), round;
      }
      if |argv| < WORD {
        return Err(ArgvTooShort), round;
      }
      r, round := AppendVector(front.value, regs.arg0, argv, n, interpreter, argument);
    }

    /** Appends the vector of a round behind its strings. */
    method AppendVector(front: seq<nat>, path: nat, argv: seq<Byte>, ghost n: nat, ghost interpreter: seq<Byte>,
                        ghost argument: Option<seq<Byte>>)
      returns (r: Result<Exec, ScratchError>, ghost round: Round)
      requires area.Valid() && |argv| >= WORD && FrontWritten(area.blocks, n, interpreter, argument, front)
      modifies area
      ensures area.Valid() && old(area.blocks) <= area.blocks && r != Err(ArgvTooShort)
      ensures r.Ok? ==> && r.value == Exec(round.interpreter, round.vector)
                        && RoundWritten(area.blocks, n, path, argv, interpreter, argument, round)
                        && RoundVector(area.memory, round, path, argv)
      ensures r.Ok? <==> HasSpace(area.mode, old(area.offset), NewLength(Length(argument), |argv|))
      ensures r.Ok? ==> area.offset == old(area.offset) + Taken(area.mode, NewLength(Length(argument), |argv|))
    {
      ghost var blocks := area.blocks;
      round := Round(front[0], if argument.Some? then Some(front[1]) else None, 0);
      assert front + [path] == Front(round, path);
      var argvAddr := AppendArgv(front + [path], argv);
      if argvAddr.Err? {
        return Err(argvAddr.error), round;
      }
      round := round.(vector := argvAddr.value);
      VectorBehindFront(blocks, n, interpreter, argument, front, area.blocks, path, argv, round);
      RoundVectorIs(area.memory, round, path, argv);
      r := Ok(Exec(front[0], argvAddr.value));
    }

    /** Appends the strings of a round and returns their addresses. */
    method AppendFront(interpreter: seq<Byte>, argument: Option<seq<Byte>>) returns (r: Result<seq<nat>, ScratchError>)
      requires area.Valid()
      modifies area
      ensures area.Valid() && old(area.blocks) <= area.blocks && r != Err(ArgvTooShort)
      ensures r.Ok? ==> FrontWritten(area.blocks, |old(area.blocks)|, interpreter, argument, r.value)
      ensures r.Ok? <==> SpaceForFront(area.mode, old(area.offset), |interpreter|, Length(argument))
      ensures r.Ok? ==> area.offset == old(area.offset) + TakenByFront(area.mode, |interpreter|, Length(argument))
    {
      var interpAddr := AppendString(interpreter);
      if interpAddr.Err? {
        return Err(interpAddr.error);
      }
      var addresses := [interpAddr.value];
      if argument.Some? {
        var argAddr := AppendString(argument.value);
        if argAddr.Err? {
          return Err(argAddr.error);
        }
        addresses := addresses + [argAddr.value];
      }
      r := Ok(addresses);
    }
  }
}
