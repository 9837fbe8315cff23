/** The Universal Machine's fetch/decode/execute loop: eight 32-bit registers, a program
    counter into segment 0, and the 14 instructions.  `Step` and `Run` specify one
    instruction and a whole run on values; `Execute` is the loop itself, over the
    `RumMem.Memory` object and a register array, proved to follow `Run`. */
module RumRun {
  import opened Words
  import opened Bits
  import RumDis
  import RumMem

  type Registers = r: seq<u32> | |r| == 8 witness [0, 0, 0, 0, 0, 0, 0, 0]

  const ZERO_REGISTERS: Registers := [0, 0, 0, 0, 0, 0, 0, 0]

  /** Every way the source panics or exits while running. */
  datatype Fault =
    | MemoryFault(error: RumMem.MemError)   // a segment access, or Map out of ids
    | PcOutOfRange(pc: nat)                 // the program counter is past segment 0
    | DivideByZero
    | EndOfInput                            // `input` reads past the end of the input
    | InvalidOpcode(opcode: u32)

  /** The machine between instructions.  `length` is the cached program length, which
      only Load Program refreshes; `input` is what is left to read, `output` what has
      been written. */
  datatype State = State(
    pc: nat,
    length: nat,
    regs: Registers,
    segs: RumMem.Segments,
    input: seq<u8>,
    output: seq<u8>)

  /** The effect of one instruction. */
  datatype StepResult = Next(next: State) | Stop | Fail(fault: Fault)

  /** How a run ends: the program counter reached the program length, a Halt, a fault
      (with the state before the faulting instruction), or the step budget ran out.
      `Invalid` marks a sequence of allocation choices that Map could not have made. */
  datatype Outcome =
    | Finished(state: State)
    | Halted(state: State)
    | Faulted(fault: Fault, state: State)
    | OutOfFuel(state: State)
    | Invalid

  /** `!(x & y)` on u32. */
  function Nand(x: u32, y: u32): u32
  {
    Pow2Constants();
    AndBound(x, y);
    NotValue(And(x, y), 32);
    Not(And(x, y), 32)
  }

  /** The instruction word at the program counter, if there is one. */
  function Fetch(s: State): Result<u32>
  {
    if 0 !in s.segs then Failure(MemoryFault(RumMem.UnmappedSegment(0)))
    else if s.pc >= |s.segs[0]| then Failure(PcOutOfRange(s.pc))
    else Success(s.segs[0][s.pc])
  }

  datatype Result<T> = Success(value: T) | Failure(fault: Fault)

  /** The instruction at the program counter is Map, and it will allocate. */
  predicate NeedsPick(s: State)
  {
    Fetch(s).Success? && RumDis.Disassemble(Fetch(s).value).opcode == 8 &&
    |s.segs| < U32_MAX
  }

  /** The register numbers of a decoded instruction name registers. */
  predicate WellDecoded(i: RumDis.Instruction)
  {
    i.regA < 8 && i.regB < 8 && i.regC < 8 && i.regLoad < 8
  }

  /** `u32::wrapping_add`. */
  function WrappingAdd(x: u32, y: u32): u32
  {
    (x + y) % 0x1_0000_0000
  }

  /** `u32::wrapping_mul`. */
  function WrappingMul(x: u32, y: u32): u32
  {
    (x * y) % 0x1_0000_0000
  }

  /** u32 division, rounding down; division by zero panics. */
  function Divide(x: u32, y: u32): Result<u32>
  {
    if y == 0 then Failure(DivideByZero)
    else
      DivLe(x, y);
      Success(x / y)
  }

  /** The registers with register k set to v. */
  function SetRegister(r: Registers, k: u32, v: u32): Registers
    requires k < 8
  {
    r[k := v]
  }

  const REGISTER_OPCODES: set<u32> := {0, 3, 4, 5, 6, 13}
  const MEMORY_OPCODES: set<u32> := {1, 2, 8, 9, 12}
  const IO_OPCODES: set<u32> := {10, 11}

  /** Conditional Move, Add, Multiply, Divide, NAND and Load Value: the new registers. */
  function RegisterOp(r: Registers, i: RumDis.Instruction): Result<Registers>
    requires WellDecoded(i) && i.opcode in REGISTER_OPCODES
  {
    var a, b, c := i.regA, i.regB, i.regC;
    if i.opcode == 0 then
      var moved: Registers := if r[c] != 0 then SetRegister(r, a, r[b]) else r;
      Success(moved)
    else if i.opcode == 3 then Success(SetRegister(r, a, WrappingAdd(r[b], r[c])))
    else if i.opcode == 4 then Success(SetRegister(r, a, WrappingMul(r[b], r[c])))
    else if i.opcode == 5 then
      match Divide(r[b], r[c])
      case Failure(f) => Failure(f)
      case Success(q) => Success(SetRegister(r, a, q))
    else if i.opcode == 6 then Success(SetRegister(r, a, Nand(r[b], r[c])))
    else Success(SetRegister(r, i.regLoad, i.loadValue))
  }

  /** Segmented Load, Segmented Store, Map, Unmap and Load Program.  A successful Map
      puts its new segment at id `pick`. */
  function MemoryOp(s: State, i: RumDis.Instruction, pick: u32): StepResult
    requires WellDecoded(i) && i.opcode in MEMORY_OPCODES
  {
    var r := s.regs;
    var a, b, c := i.regA, i.regB, i.regC;
    var s1 := s.(pc := s.pc + 1);
    if i.opcode == 1 then
      match RumMem.Read(s.segs, r[b], r[c])
      case Err(e) => Fail(MemoryFault(e))
      case Ok(v) => Next(s1.(regs := SetRegister(r, a, v)))
    else if i.opcode == 2 then
      match RumMem.Write(s.segs, r[a], r[b], r[c])
      case Err(e) => Fail(MemoryFault(e))
      case Ok(m) => Next(s1.(segs := m))
    else if i.opcode == 8 then
      if |s.segs| == U32_MAX then Fail(MemoryFault(RumMem.OutOfMemory))
      else if |s.segs| == RumMem.KEY_SPACE then Fail(MemoryFault(RumMem.NoOpenIndex))
      else Next(s1.(segs := s.segs[pick := RumMem.Zeros(r[c])], regs := SetRegister(r, b, pick)))
    else if i.opcode == 9 then
      Next(s1.(segs := s.segs - {r[c]}))
    else
      if r[b] !in s.segs then Fail(MemoryFault(RumMem.UnmappedSegment(r[b])))
      else
        var program := s.segs[r[b]];
        Next(s.(segs := s.segs[0 := program], pc := r[c], length := |program|))
  }

  /** Output writes the low eight bits of r[C]; Input reads one byte into r[C]. */
  function IoOp(s: State, i: RumDis.Instruction): StepResult
    requires WellDecoded(i) && i.opcode in IO_OPCODES
  {
    var r := s.regs;
    var c := i.regC;
    if i.opcode == 10 then Next(s.(pc := s.pc + 1, output := s.output + [r[c] % 0x100]))
    else if s.input == [] then Fail(EndOfInput)
    else Next(s.(pc := s.pc + 1, regs := SetRegister(r, c, s.input[0]), input := s.input[1..]))
  }

  /** Executes the instruction at the program counter; a successful Map puts its new
      segment at id `pick`. */
  function Step(s: State, pick: u32): StepResult
  {
    match Fetch(s)
    case Failure(f) => Fail(f)
    case Success(word) =>
      RumDis.DisassembleBounds(word);
      Dispatch(s, RumDis.Disassemble(word), pick)
  }

  /** The effect of one decoded instruction, dispatched on its opcode. */
  function Dispatch(s: State, i: RumDis.Instruction, pick: u32): StepResult
    requires WellDecoded(i)
  {
    if i.opcode in REGISTER_OPCODES then
      match RegisterOp(s.regs, i)
      case Failure(f) => Fail(f)
      case Success(r) => Next(s.(pc := s.pc + 1, regs := r))
    else if i.opcode == 7 then Stop
    else if i.opcode in MEMORY_OPCODES then MemoryOp(s, i, pick)
    else if i.opcode in IO_OPCODES then IoOp(s, i)
    else Fail(InvalidOpcode(i.opcode))
  }

  /** Runs from `s` for at most `fuel` instructions, taking the id of each successful
      Map from `picks` in order. */
  function Run(s: State, picks: seq<u32>, fuel: nat): Outcome
    decreases fuel
  {
    if s.pc == s.length then Finished(s)
    else if fuel == 0 then OutOfFuel(s)
    else
      var needs := NeedsPick(s);
      if needs && (picks == [] || !RumMem.Fresh(s.segs, picks[0])) then Invalid
      else
        var pick := if needs then picks[0] else 0;
        var rest := if needs then picks[1..] else picks;
        match Step(s, pick)
        case Next(t) => Run(t, rest, fuel - 1)
        case Stop => Halted(s)
        case Fail(f) => Faulted(f, s)
  }

  /** The machine `execute` starts: pc 0, the length of segment 0, zero registers. */
  function Start(segs: RumMem.Segments, input: seq<u8>): State
  {
    State(0, if 0 in segs then |segs[0]| else 0, ZERO_REGISTERS, segs, input, [])
  }

  /** A whole run of `execute` on a memory; reading the length of a missing segment 0
      is a fault before the first instruction. */
  function Exec(segs: RumMem.Segments, input: seq<u8>, picks: seq<u32>, fuel: nat): Outcome
  {
    if 0 !in segs then Faulted(MemoryFault(RumMem.UnmappedSegment(0)), Start(segs, input))
    else Run(Start(segs, input), picks, fuel)
  }

  /** `!(x & y)` is the complement of the AND: the bits set in exactly one of
      `Nand(x, y)` and `And(x, y)` make up all 32 bits. */
  lemma NandValue(x: u32, y: u32)
    ensures Nand(x, y) == U32_MAX - And(x, y)
    ensures Nand(x, x) == U32_MAX - x
  {
    Pow2Constants();
    AndBound(x, y);
    NotValue(And(x, y), 32);
    AndSelf(x);
    NotValue(x, 32);
  }

  lemma {:induction false} AndSelf(x: nat)
    ensures And(x, x) == x
  {
    if x != 0 {
      AndSelf(x / 2);
    }
  }

  /** The run stops, without executing anything, once the program counter equals the
      cached program length. */
  lemma RunStopsAtLength(s: State, picks: seq<u32>, fuel: nat)
    requires s.pc == s.length
    ensures Run(s, picks, fuel) == Finished(s)
  {
  }

  /** `execute` starts at pc 0 with zero registers and the length of segment 0. */
  lemma ExecStarts(segs: RumMem.Segments, input: seq<u8>, picks: seq<u32>, fuel: nat)
    requires 0 in segs
    ensures Exec(segs, input, picks, fuel)
      == Run(State(0, |segs[0]|, ZERO_REGISTERS, segs, input, []), picks, fuel)
    ensures |segs[0]| == 0 ==> Exec(segs, input, picks, fuel).Finished?
  {
  }

  /** Conditional Move copies r[B] into r[A] when r[C] is not 0 and otherwise changes
      nothing but the program counter. */
  lemma ConditionalMoveStep(s: State, pick: u32, w: u32)
    requires Fetch(s) == Success(w) && RumDis.Disassemble(w).opcode == 0
    ensures WellDecoded(RumDis.Disassemble(w))
    ensures var i := RumDis.Disassemble(w);
      Step(s, pick) == Next(s.(pc := s.pc + 1, regs := Step(s, pick).next.regs)) &&
      (s.regs[i.regC] != 0 ==> Step(s, pick).next.regs == s.regs[i.regA := s.regs[i.regB]]) &&
      (s.regs[i.regC] == 0 ==> Step(s, pick).next.regs == s.regs)
  {
    StepIsDispatch(s, pick, w);
  }

  /** A register instruction continues with the registers `RegisterOp` computes, or
      fails with its fault. */
  lemma RegisterStep(s: State, pick: u32, w: u32)
    requires Fetch(s) == Success(w) && RumDis.Disassemble(w).opcode in REGISTER_OPCODES
    ensures WellDecoded(RumDis.Disassemble(w))
    ensures var r := RegisterOp(s.regs, RumDis.Disassemble(w));
      (r.Failure? ==> Step(s, pick) == Fail(r.fault)) &&
      (r.Success? ==> Step(s, pick) == Next(s.(pc := s.pc + 1, regs := r.value)))
  {
    StepIsDispatch(s, pick, w);
  }

  /** `t` is `s` after an instruction that wrote `v` into register k and changed nothing
      else but the program counter. */
  predicate WroteRegister(s: State, t: State, k: nat, v: int)
    requires k < 8
  {
    t == s.(pc := s.pc + 1, regs := t.regs) && t.regs[k] == v &&
    forall j :: 0 <= j < 8 && j != k ==> t.regs[j] == s.regs[j]
  }

  /** Add, Multiply and NAND store their result in r[A], reduced to 32 bits, and change
      nothing else but the program counter. */
  lemma ArithmeticStep(s: State, pick: u32, w: u32)
    requires Fetch(s) == Success(w) && RumDis.Disassemble(w).opcode in {3, 4, 6}
    ensures WellDecoded(RumDis.Disassemble(w)) && Step(s, pick).Next?
    ensures var i := RumDis.Disassemble(w);
      var x, y := s.regs[i.regB], s.regs[i.regC];
      var v := if i.opcode == 3 then (x + y) % 0x1_0000_0000
        else if i.opcode == 4 then (x * y) % 0x1_0000_0000
        else U32_MAX - And(x, y);
      WroteRegister(s, Step(s, pick).next, i.regA, v)
  {
    RegisterStep(s, pick, w);
    var i := RumDis.Disassemble(w);
    var x, y := s.regs[i.regB], s.regs[i.regC];
    var r := RegisterOp(s.regs, i);
    if i.opcode == 3 {
      assert r == Success(SetRegister(s.regs, i.regA, WrappingAdd(x, y)));
    } else if i.opcode == 4 {
      assert r == Success(SetRegister(s.regs, i.regA, WrappingMul(x, y)));
    } else {
      NandValue(x, y);
      assert r == Success(SetRegister(s.regs, i.regA, Nand(x, y)));
    }
  }

  /** Divide stores the quotient rounded down in r[A]; a zero divisor is a fault. */
  lemma DivideStep(s: State, pick: u32, w: u32)
    requires Fetch(s) == Success(w) && RumDis.Disassemble(w).opcode == 5
    ensures WellDecoded(RumDis.Disassemble(w))
    ensures var i := RumDis.Disassemble(w);
      s.regs[i.regC] == 0 <==> Step(s, pick) == Fail(DivideByZero)
    ensures var i := RumDis.Disassemble(w);
      var x, y := s.regs[i.regB], s.regs[i.regC];
      y != 0 ==> Step(s, pick) == Next(s.(pc := s.pc + 1, regs := s.regs[i.regA := x / y]))
  {
    RegisterStep(s, pick, w);
  }

  /** Halt stops the run in the state it is in. */
  lemma HaltStep(s: State, pick: u32, w: u32)
    requires Fetch(s) == Success(w)
    ensures Step(s, pick) == Stop <==> RumDis.Disassemble(w).opcode == 7
  {
    StepIsDispatch(s, pick, w);
  }

  /** Opcodes 14 and 15 are faults. */
  lemma InvalidOpcodeStep(s: State, pick: u32, w: u32)
    requires Fetch(s) == Success(w) && RumDis.Disassemble(w).opcode >= 14
    ensures Step(s, pick) == Fail(InvalidOpcode(RumDis.Disassemble(w).opcode))
  {
    StepIsDispatch(s, pick, w);
    DispatchInvalid(s, RumDis.Disassemble(w), pick);
  }

  /** Opcodes 14 and 15 fail on the decoded instruction. */
  lemma DispatchInvalid(s: State, i: RumDis.Instruction, pick: u32)
    requires WellDecoded(i) && i.opcode >= 14
    ensures Dispatch(s, i, pick) == Fail(InvalidOpcode(i.opcode))
  {
  }

  /** Load Value writes the 25-bit immediate into the load register. */
  lemma LoadValueStep(s: State, pick: u32, w: u32)
    requires Fetch(s) == Success(w) && RumDis.Disassemble(w).opcode == 13
    ensures WellDecoded(RumDis.Disassemble(w))
    ensures var i := RumDis.Disassemble(w);
      i.loadValue < 0x200_0000 &&
      Step(s, pick) == Next(s.(pc := s.pc + 1, regs := s.regs[i.regLoad := i.loadValue]))
  {
    StepIsDispatch(s, pick, w);
    RumDis.DisassembleBounds(w);
    DispatchLoadValue(s, RumDis.Disassemble(w), pick);
  }

  /** Load Value on the decoded instruction. */
  lemma DispatchLoadValue(s: State, i: RumDis.Instruction, pick: u32)
    requires WellDecoded(i) && i.opcode == 13
    ensures Dispatch(s, i, pick) == Next(s.(pc := s.pc + 1, regs := s.regs[i.regLoad := i.loadValue]))
  {
  }

  /** Segmented Load reads r[A] := m[r[B]][r[C]]; Segmented Store writes
      m[r[A]][r[B]] := r[C]; both fail exactly when the word does not exist. */
  lemma SegmentStep(s: State, pick: u32, w: u32)
    requires Fetch(s) == Success(w) && RumDis.Disassemble(w).opcode in {1, 2}
    ensures WellDecoded(RumDis.Disassemble(w))
    ensures var i := RumDis.Disassemble(w);
      var a, b, c := s.regs[i.regA], s.regs[i.regB], s.regs[i.regC];
      (i.opcode == 1 ==>
        (Step(s, pick).Fail? <==> RumMem.Read(s.segs, b, c).Err?) &&
        (Step(s, pick).Next? ==>
          Step(s, pick) == Next(s.(pc := s.pc + 1, regs := s.regs[i.regA := s.segs[b][c]])))) &&
      (i.opcode == 2 ==>
        (Step(s, pick).Fail? <==> RumMem.Read(s.segs, a, b).Err?) &&
        (Step(s, pick).Next? ==>
          (a in s.segs && b < |s.segs[a]| &&
           Step(s, pick) == Next(s.(pc := s.pc + 1, segs := s.segs[a := s.segs[a][b := c]])))))
  {
    StepIsDispatch(s, pick, w);
    if RumDis.Disassemble(w).opcode == 1 {
      LoadSegmentStep(s, pick, w);
    } else {
      StoreSegmentStep(s, pick, w);
    }
  }

  /** Segmented Load on its own. */
  lemma LoadSegmentStep(s: State, pick: u32, w: u32)
    requires Fetch(s) == Success(w) && RumDis.Disassemble(w).opcode == 1
    ensures var i := RumDis.Disassemble(w);
      i.regA < 8 && i.regB < 8 && i.regC < 8 &&
      var b, c := s.regs[i.regB], s.regs[i.regC];
      (Step(s, pick).Fail? <==> RumMem.Read(s.segs, b, c).Err?) &&
      (Step(s, pick).Next? ==>
        Step(s, pick) == Next(s.(pc := s.pc + 1, regs := s.regs[i.regA := s.segs[b][c]])))
  {
    StepIsDispatch(s, pick, w);
  }

  /** Segmented Store on its own. */
  lemma StoreSegmentStep(s: State, pick: u32, w: u32)
    requires Fetch(s) == Success(w) && RumDis.Disassemble(w).opcode == 2
    ensures var i := RumDis.Disassemble(w);
      i.regA < 8 && i.regB < 8 && i.regC < 8 &&
      var a, b, c := s.regs[i.regA], s.regs[i.regB], s.regs[i.regC];
      (Step(s, pick).Fail? <==> RumMem.Read(s.segs, a, b).Err?) &&
      (Step(s, pick).Next? ==>
        (a in s.segs && b < |s.segs[a]| &&
         Step(s, pick) == Next(s.(pc := s.pc + 1, segs := s.segs[a := s.segs[a][b := c]]))))
  {
    StepIsDispatch(s, pick, w);
    var i := RumDis.Disassemble(w);
    RumMem.WriteFailsLikeRead(s.segs, s.regs[i.regA], s.regs[i.regB], s.regs[i.regC]);
  }

  /** Map puts a fresh segment of r[C] zeros at the chosen id and writes the id into
      r[B]; it fails only when u32::MAX or more ids are in use. */
  lemma MapStep(s: State, pick: u32, w: u32)
    requires Fetch(s) == Success(w) && RumDis.Disassemble(w).opcode == 8
    ensures WellDecoded(RumDis.Disassemble(w))
    ensures var i := RumDis.Disassemble(w);
      (Step(s, pick).Fail? <==> |s.segs| >= U32_MAX) &&
      (Step(s, pick).Next? ==> Step(s, pick) == Next(s.(pc := s.pc + 1,
        segs := s.segs[pick := RumMem.Zeros(s.regs[i.regC])],
        regs := s.regs[i.regB := pick])))
  {
    StepIsDispatch(s, pick, w);
    RumMem.KeysBounded(s.segs.Keys);
  }

  /** Unmap removes the segment r[C] names, if any. */
  lemma UnmapStep(s: State, pick: u32, w: u32)
    requires Fetch(s) == Success(w) && RumDis.Disassemble(w).opcode == 9
    ensures WellDecoded(RumDis.Disassemble(w))
    ensures Step(s, pick) ==
      Next(s.(pc := s.pc + 1, segs := s.segs - {s.regs[RumDis.Disassemble(w).regC]}))
  {
    StepIsDispatch(s, pick, w);
  }

  /** Output appends the low eight bits of r[C]; Input reads the next byte into r[C],
      and fails at the end of the input. */
  lemma IoStep(s: State, pick: u32, w: u32)
    requires Fetch(s) == Success(w) && RumDis.Disassemble(w).opcode in {10, 11}
    ensures WellDecoded(RumDis.Disassemble(w))
    ensures var i := RumDis.Disassemble(w);
      (i.opcode == 10 ==>
        Step(s, pick) == Next(s.(pc := s.pc + 1, output := s.output + [s.regs[i.regC] % 0x100]))) &&
      (i.opcode == 11 && s.input == [] ==> Step(s, pick) == Fail(EndOfInput)) &&
      (i.opcode == 11 && s.input != [] ==>
        Step(s, pick) ==
          Next(s.(pc := s.pc + 1, regs := s.regs[i.regC := s.input[0]], input := s.input[1..])))
  {
    StepIsDispatch(s, pick, w);
    DispatchIo(s, RumDis.Disassemble(w), pick);
  }

  /** Output and Input on the decoded instruction. */
  lemma DispatchIo(s: State, i: RumDis.Instruction, pick: u32)
    requires WellDecoded(i) && i.opcode in {10, 11}
    ensures (i.opcode == 10 ==>
        Dispatch(s, i, pick) == Next(s.(pc := s.pc + 1, output := s.output + [s.regs[i.regC] % 0x100]))) &&
      (i.opcode == 11 && s.input == [] ==> Dispatch(s, i, pick) == Fail(EndOfInput)) &&
      (i.opcode == 11 && s.input != [] ==>
        Dispatch(s, i, pick) ==
          Next(s.(pc := s.pc + 1, regs := s.regs[i.regC := s.input[0]], input := s.input[1..])))
  {
  }

  /** Load Program replaces segment 0 by a copy of segment r[B], jumps to r[C] without
      the usual increment, and refreshes the cached length. */
  lemma LoadProgramStep(s: State, pick: u32, w: u32)
    requires Fetch(s) == Success(w) && RumDis.Disassemble(w).opcode == 12
    ensures WellDecoded(RumDis.Disassemble(w))
    ensures var i := RumDis.Disassemble(w);
      var b, c := s.regs[i.regB], s.regs[i.regC];
      (b !in s.segs ==> Step(s, pick) == Fail(MemoryFault(RumMem.UnmappedSegment(b)))) &&
      (b in s.segs ==>
        Step(s, pick) == Next(s.(segs := s.segs[0 := s.segs[b]], pc := c, length := |s.segs[b]|)))
  {
    StepIsDispatch(s, pick, w);
  }

  /** Every instruction but Load Program that continues advances the program counter by
      exactly one and keeps the cached length; only Load Program, Store, Map and Unmap
      change memory, only Output changes the output, only Input the input. */
  lemma StepFrame(s: State, pick: u32, w: u32)
    requires Fetch(s) == Success(w) && Step(s, pick).Next?
    ensures var i := RumDis.Disassemble(w); var t := Step(s, pick).next;
      (i.opcode != 12 ==> t.pc == s.pc + 1 && t.length == s.length) &&
      (i.opcode !in {2, 8, 9, 12} ==> t.segs == s.segs) &&
      (i.opcode != 10 ==> t.output == s.output) &&
      (i.opcode != 11 ==> t.input == s.input) &&
      (i.opcode in {2, 9, 10, 12} ==> t.regs == s.regs)
  {
    StepIsDispatch(s, pick, w);
    DispatchFrame(s, RumDis.Disassemble(w), pick);
  }

  /** A fetched word is decoded and dispatched. */
  lemma StepIsDispatch(s: State, pick: u32, w: u32)
    requires Fetch(s) == Success(w)
    ensures WellDecoded(RumDis.Disassemble(w)) && Step(s, pick) == Dispatch(s, RumDis.Disassemble(w), pick)
  {
    RumDis.DisassembleBounds(w);
  }

  /** The frame of one decoded instruction that continues. */
  lemma DispatchFrame(s: State, i: RumDis.Instruction, pick: u32)
    requires WellDecoded(i) && Dispatch(s, i, pick).Next?
    ensures var t := Dispatch(s, i, pick).next;
      (i.opcode != 12 ==> t.pc == s.pc + 1 && t.length == s.length) &&
      (i.opcode !in {2, 8, 9, 12} ==> t.segs == s.segs) &&
      (i.opcode != 10 ==> t.output == s.output) &&
      (i.opcode != 11 ==> t.input == s.input) &&
      (i.opcode in {2, 9, 10, 12} ==> t.regs == s.regs)
  {
  }

  /** A three-instruction program: load 72 into r1, output r1, halt.  It halts after
      writing the one byte 72, with r1 holding 72. */
  lemma OutputProgramScenario()
    ensures var program := [RumDis.EncodeLoadValue(13, 1, 72), RumDis.EncodeRegisters(10, 0, 0, 1),
                            RumDis.EncodeRegisters(7, 0, 0, 0)];
      Exec(map[0 := program], [], [], 3)
        == Halted(State(2, 3, [0, 72, 0, 0, 0, 0, 0, 0], map[0 := program], [], [72]))
  {
    var program := [RumDis.EncodeLoadValue(13, 1, 72), RumDis.EncodeRegisters(10, 0, 0, 1),
                    RumDis.EncodeRegisters(7, 0, 0, 0)];
    var s0 := Start(map[0 := program], []);
    var s1 := s0.(pc := 1, regs := [0, 72, 0, 0, 0, 0, 0, 0]);
    var s2 := s1.(pc := 2, output := [72]);
    OutputProgramSteps(program, s0, s1, s2);
    PlainStep(s0, program[0], 3, s1);
    PlainStep(s1, program[1], 2, s2);
    assert Run(s2, [], 1) == Halted(s2);
  }

  /** The three instructions of that program, one at a time. */
  lemma OutputProgramSteps(program: seq<u32>, s0: State, s1: State, s2: State)
    requires program == [RumDis.EncodeLoadValue(13, 1, 72), RumDis.EncodeRegisters(10, 0, 0, 1),
                         RumDis.EncodeRegisters(7, 0, 0, 0)]
    requires s0 == Start(map[0 := program], [])
    requires s1 == s0.(pc := 1, regs := [0, 72, 0, 0, 0, 0, 0, 0]) && s2 == s1.(pc := 2, output := [72])
    ensures Fetch(s0) == Success(program[0]) && Fetch(s1) == Success(program[1])
    ensures RumDis.Disassemble(program[0]).opcode == 13 && RumDis.Disassemble(program[1]).opcode == 10
    ensures s0.pc != s0.length && s1.pc != s1.length && s2.pc != s2.length
    ensures Step(s0, 0) == Next(s1) && Step(s1, 0) == Next(s2) && Step(s2, 0) == Stop
  {
    assert Fetch(s0) == Success(program[0]) && Fetch(s1) == Success(program[1]);
    assert Fetch(s2) == Success(program[2]);
    LoadValue72(s0, program[0]);
    assert s0.regs[1 := 72] == [0, 72, 0, 0, 0, 0, 0, 0];
    assert s0.(pc := s0.pc + 1, regs := s0.regs[1 := 72]) == s1;
    OutputR1(s1, program[1]);
    assert s1.regs[1] == 72 && s1.output == [];
    OutputOf72(s1);
    assert s1.(pc := s1.pc + 1, output := s1.output + [s1.regs[1] % 0x100]) == s2;
    HaltWord(s2, program[2]);
  }

  lemma LoadValue72(s: State, w: u32)
    requires w == RumDis.EncodeLoadValue(13, 1, 72) && Fetch(s) == Success(w)
    ensures RumDis.Disassemble(w).opcode == 13
    ensures Step(s, 0) == Next(s.(pc := s.pc + 1, regs := s.regs[1 := 72]))
  {
    RumDis.DecodeEncodeLoadValue(13, 1, 72);
    LoadValueStep(s, 0, w);
  }

  lemma OutputR1(s: State, w: u32)
    requires w == RumDis.EncodeRegisters(10, 0, 0, 1) && Fetch(s) == Success(w)
    ensures RumDis.Disassemble(w).opcode == 10
    ensures Step(s, 0) == Next(s.(pc := s.pc + 1, output := s.output + [s.regs[1] % 0x100]))
  {
    RumDis.DecodeEncodeRegisters(10, 0, 0, 1);
    IoStep(s, 0, w);
  }

  lemma OutputOf72(s: State)
    requires s.output == [] && s.regs[1] == 72
    ensures s.output + [s.regs[1] % 0x100] == [72]
  {
    assert s.regs[1] % 0x100 == 72;
  }

  lemma HaltWord(s: State, w: u32)
    requires w == RumDis.EncodeRegisters(7, 0, 0, 0) && Fetch(s) == Success(w)
    ensures Step(s, 0) == Stop
  {
    RumDis.DecodeEncodeRegisters(7, 0, 0, 0);
    HaltStep(s, 0, w);
  }

  /** An instruction other than Map that continues takes no pick and one unit of fuel. */
  lemma PlainStep(s: State, w: u32, fuel: nat, t: State)
    requires Fetch(s) == Success(w) && RumDis.Disassemble(w).opcode != 8
    requires s.pc != s.length && fuel > 0 && Step(s, 0) == Next(t)
    ensures Run(s, [], fuel) == Run(t, [], fuel - 1)
  {
    RunStep(s, 0, [], [], fuel);
  }

  /** A Divide by r3, which starts at 0, faults before changing anything. */
  lemma DivideByZeroScenario()
    ensures var program := [RumDis.EncodeRegisters(5, 1, 2, 3)];
      Exec(map[0 := program], [], [], 1)
        == Faulted(DivideByZero, State(0, 1, ZERO_REGISTERS, map[0 := program], [], []))
  {
    var w := RumDis.EncodeRegisters(5, 1, 2, 3);
    var segs := map[0 := [w]];
    RumDis.DecodeEncodeRegisters(5, 1, 2, 3);
    var s0 := Start(segs, []);
    assert Fetch(s0) == Success(w);
    DivideStep(s0, 0, w);
  }

  /** One instruction of a run, consuming the pick of a Map that allocates. */
  lemma RunStep(s: State, pick: u32, used: seq<u32>, rest: seq<u32>, fuel: nat)
    requires s.pc != s.length && fuel > 0
    requires NeedsPick(s) ==> used == [pick] && RumMem.Fresh(s.segs, pick)
    requires !NeedsPick(s) ==> used == [] && pick == 0
    ensures Run(s, used + rest, fuel) == match Step(s, pick)
      case Next(t) => Run(t, rest, fuel - 1)
      case Stop => Halted(s)
      case Fail(f) => Faulted(f, s)
  {
    if NeedsPick(s) {
      assert (used + rest)[0] == pick && (used + rest)[1..] == rest;
    } else {
      assert used + rest == rest;
    }
  }

  /** The loop invariant of `execute` survives one instruction, and a Halt or a fault
      ends the run the way `Exec` says. */
  lemma Advance(segs0: RumMem.Segments, input: seq<u8>, fuel: nat, earlier: seq<u32>,
                used: seq<u32>, cur: State, pick: u32, fuelLeft: nat, r: StepResult)
    requires forall rest :: Exec(segs0, input, earlier + rest, fuel) == Run(cur, rest, fuelLeft)
    requires cur.pc != cur.length && fuelLeft > 0
    requires NeedsPick(cur) ==> used == [pick] && RumMem.Fresh(cur.segs, pick)
    requires !NeedsPick(cur) ==> used == [] && pick == 0
    requires Step(cur, pick) == r
    ensures r.Next? ==> forall rest ::
      Exec(segs0, input, (earlier + used) + rest, fuel) == Run(r.next, rest, fuelLeft - 1)
    ensures r.Stop? ==> Exec(segs0, input, earlier + used, fuel) == Halted(cur)
    ensures r.Fail? ==> Exec(segs0, input, earlier + used, fuel) == Faulted(r.fault, cur)
  {
    forall rest
      ensures Exec(segs0, input, (earlier + used) + rest, fuel) == Run(cur, used + rest, fuelLeft)
    {
      ConcatAssoc(earlier, used, rest);
    }
    if r.Next? {
      forall rest
        ensures Exec(segs0, input, (earlier + used) + rest, fuel) == Run(r.next, rest, fuelLeft - 1)
      {
        RunStep(cur, pick, used, rest, fuelLeft);
      }
    } else {
      RunStep(cur, pick, used, [], fuelLeft);
      assert (earlier + used) + [] == earlier + used;
    }
  }

  lemma ConcatAssoc(a: seq<u32>, b: seq<u32>, c: seq<u32>)
    ensures (a + b) + c == a + (b + c)
  {
  }

  /** The outcome of one instruction in the loop. */
  datatype CycleKind = Continued | Stopped | Failed(fault: Fault)

  /** The register instructions, in place on the register array. */
  method ExecRegisterOp(regs: array<u32>, i: RumDis.Instruction) returns (r: Result<()>)
    requires regs.Length == 8 && WellDecoded(i) && i.opcode in REGISTER_OPCODES
    modifies regs
    ensures r.Success? <==> RegisterOp(old(regs[..]), i).Success?
    ensures r.Success? ==> RegisterOp(old(regs[..]), i).value == regs[..]
    ensures r.Failure? ==> RegisterOp(old(regs[..]), i).fault == r.fault
    ensures r.Failure? ==> regs[..] == old(regs[..])
  {
    var a, b, c := i.regA, i.regB, i.regC;
    if i.opcode == 0 {
      if regs[c] != 0 {
        regs[a] := regs[b];
      }
    } else if i.opcode == 3 {
      regs[a] := WrappingAdd(regs[b], regs[c]);
    } else if i.opcode == 4 {
      regs[a] := WrappingMul(regs[b], regs[c]);
    } else if i.opcode == 5 {
      var q := Divide(regs[b], regs[c]);
      if q.Failure? {
        return Failure(q.fault);
      }
      regs[a] := q.value;
    } else if i.opcode == 6 {
      regs[a] := Nand(regs[b], regs[c]);
    } else {
      regs[i.regLoad] := i.loadValue;
    }
    return Success(());
  }

  /** The memory instructions, on the memory object and the register array. */
  method ExecMemoryOp(memory: RumMem.Memory, regs: array<u32>, pc: nat, length: nat,
                      input: seq<u8>, output: seq<u8>, i: RumDis.Instruction)
    returns (kind: CycleKind, pc': nat, length': nat, pick: u32)
    requires regs.Length == 8 && WellDecoded(i) && i.opcode in MEMORY_OPCODES
    modifies memory, regs
    ensures var before := State(pc, length, old(regs[..]), old(memory.segments), input, output);
      (i.opcode == 8 && |before.segs| < U32_MAX ==> RumMem.Fresh(before.segs, pick)) &&
      (!(i.opcode == 8 && |before.segs| < U32_MAX) ==> pick == 0) &&
      MemoryOp(before, i, pick) == match kind
        case Continued => Next(State(pc', length', regs[..], memory.segments, input, output))
        case Stopped => Stop
        case Failed(f) => Fail(f)
    ensures !kind.Continued? ==> regs[..] == old(regs[..]) && memory.segments == old(memory.segments)
  {
    var a, b, c := i.regA, i.regB, i.regC;
    kind, pc', length', pick := Continued, pc + 1, length, 0;
    if i.opcode == 1 {
      var r := memory.Load(regs[b], regs[c]);
      if r.Err? {
        return Failed(MemoryFault(r.error)), pc', length', pick;
      }
      regs[a] := r.value;
    } else if i.opcode == 2 {
      var r := memory.Store(regs[c], regs[a], regs[b]);
      if r.Err? {
        return Failed(MemoryFault(r.error)), pc', length', pick;
      }
    } else if i.opcode == 8 {
      RumMem.KeysBounded(memory.segments.Keys);
      var r := memory.Map(regs[c]);
      if r.Err? {
        return Failed(MemoryFault(r.error)), pc', length', pick;
      }
      pick := r.value;
      regs[b] := pick;
    } else if i.opcode == 9 {
      memory.Unmap(regs[c]);
    } else {
      if regs[b] !in memory.segments {
        return Failed(MemoryFault(RumMem.UnmappedSegment(regs[b]))), pc', length', pick;
      }
      var program := memory.segments[regs[b]];
      memory.LoadProgram(program);
      pc' := regs[c];
      length' := |program|;
    }
  }

  /** Output and Input, on the register array and the byte streams. */
  method ExecIoOp(regs: array<u32>, pc: nat, length: nat, segs: RumMem.Segments,
                  input: seq<u8>, output: seq<u8>, i: RumDis.Instruction)
    returns (kind: CycleKind, input': seq<u8>, output': seq<u8>)
    requires regs.Length == 8 && WellDecoded(i) && i.opcode in IO_OPCODES
    modifies regs
    ensures IoOp(State(pc, length, old(regs[..]), segs, input, output), i) == match kind
      case Continued => Next(State(pc + 1, length, regs[..], segs, input', output'))
      case Stopped => Stop
      case Failed(f) => Fail(f)
    ensures !kind.Continued? ==> regs[..] == old(regs[..])
  {
    var c := i.regC;
    kind, input', output' := Continued, input, output;
    if i.opcode == 10 {
      output' := output + [regs[c] % 0x100];
    } else {
      if input == [] {
        return Failed(EndOfInput), input', output';
      }
      regs[c] := input[0];
      input' := input[1..];
    }
  }

  /** One iteration of the loop body in `execute`: fetch, decode and execute. */
  method Cycle(memory: RumMem.Memory, regs: array<u32>, pc: nat, length: nat,
               input: seq<u8>, output: seq<u8>)
    returns (kind: CycleKind, pc': nat, length': nat, input': seq<u8>, output': seq<u8>,
             mapped: bool, pick: u32)
    requires regs.Length == 8
    modifies memory, regs
    ensures var before := State(pc, length, old(regs[..]), old(memory.segments), input, output);
      mapped == NeedsPick(before) && (mapped ==> RumMem.Fresh(before.segs, pick)) &&
      (!mapped ==> pick == 0) &&
      Step(before, pick) == match kind
        case Continued => Next(State(pc', length', regs[..], memory.segments, input', output'))
        case Stopped => Stop
        case Failed(f) => Fail(f)
    ensures !kind.Continued? ==> regs[..] == old(regs[..]) && memory.segments == old(memory.segments)
  {
    ghost var before := State(pc, length, regs[..], memory.segments, input, output);
    pc', length', input', output', mapped, pick := pc + 1, length, input, output, false, 0;
    if 0 !in memory.segments {
      return Failed(MemoryFault(RumMem.UnmappedSegment(0))), pc', length', input', output', mapped, pick;
    }
    if pc >= |memory.segments[0]| {
      return Failed(PcOutOfRange(pc)), pc', length', input', output', mapped, pick;
    }
    var word := memory.segments[0][pc];
    var i := RumDis.Disassemble(word);
    RumDis.DisassembleBounds(word);
    assert Fetch(before) == Success(word);
    if i.opcode in REGISTER_OPCODES {
      var r := ExecRegisterOp(regs, i);
      kind := if r.Success? then Continued else Failed(r.fault);
    } else if i.opcode == 7 {
      kind := Stopped;
    } else if i.opcode in MEMORY_OPCODES {
      mapped := i.opcode == 8 && |memory.segments| < U32_MAX;
      kind, pc', length', pick := ExecMemoryOp(memory, regs, pc, length, input, output, i);
    } else if i.opcode in IO_OPCODES {
      kind, input', output' := ExecIoOp(regs, pc, length, memory.segments, input, output, i);
    } else {
      kind := Failed(InvalidOpcode(i.opcode));
    }
  }

  /** `execute`: runs the program in segment 0 until the program counter reaches the
      program length, a Halt, or a fault, for at most `fuel` instructions.  It returns
      how the run ended and the ids its Map instructions chose, and the run is the one
      `Exec` describes for those choices. */
  method Execute(memory: RumMem.Memory, input: seq<u8>, fuel: nat)
    returns (outcome: Outcome, picks: seq<u32>)
    modifies memory
    ensures outcome == Exec(old(memory.segments), input, picks, fuel)
    ensures !outcome.Invalid? && outcome.state.segs == memory.segments
  {
    ghost var segs0 := memory.segments;
    picks := [];
    var programLength := memory.GetProgramLength();
    if programLength.Err? {
      return Faulted(MemoryFault(RumMem.UnmappedSegment(0)), Start(memory.segments, input)), picks;
    }
    var regs := new u32[8](_ => 0);
    var pc: nat, length: nat := 0, programLength.value;
    var remaining: seq<u8>, output: seq<u8> := input, [];
    var fuelLeft := fuel;
    assert regs[..] == ZERO_REGISTERS;
    assert forall rest: seq<u32> :: picks + rest == rest;
    while true
      invariant regs.Length == 8
      invariant forall rest ::
        Exec(segs0, input, picks + rest, fuel)
        == Run(State(pc, length, regs[..], memory.segments, remaining, output), rest, fuelLeft)
      decreases fuelLeft
    {
      var cur := State(pc, length, regs[..], memory.segments, remaining, output);
      if pc == length || fuelLeft == 0 {
        assert picks + [] == picks;
        assert Exec(segs0, input, picks + [], fuel) == Run(cur, [], fuelLeft);
        if pc == length {
          return Finished(cur), picks;
        }
        return OutOfFuel(cur), picks;
      }
      var kind, pc', length', remaining', output', mapped, pick :=
        Cycle(memory, regs, pc, length, remaining, output);
      ghost var used: seq<u32> := if mapped then [pick] else [];
      ghost var earlier := picks;
      ghost var result := match kind
        case Continued => Next(State(pc', length', regs[..], memory.segments, remaining', output'))
        case Stopped => Stop
        case Failed(f) => Fail(f);
      Advance(segs0, input, fuel, picks, used, cur, pick, fuelLeft, result);
      if mapped {
        picks := picks + [pick];
      }
      assert picks == earlier + used;
      match kind
      case Stopped =>
        return Halted(cur), picks;
      case Failed(f) =>
        return Faulted(f, cur), picks;
      case Continued =>
        pc, length, remaining, output := pc', length', remaining', output';
        fuelLeft := fuelLeft - 1;
    }
  }
}
