/** The second Universal Machine decoder, from the disassembler lab: fields are described
    by a width and a least significant bit, extracted with a shift and a mask, and each
    instruction word is rendered as a line of text. */
module RumDump {
  import opened Words
  import opened Bits
  import RumDis

  /** A bit field of an instruction word. */
  datatype Field = Field(width: u32, lsb: u32)

  const RA: Field := Field(3, 6)
  const RB: Field := Field(3, 3)
  const RC: Field := Field(3, 0)
  const RL: Field := Field(3, 25)
  const VL: Field := Field(25, 0)
  const OP: Field := Field(4, 28)

  datatype Opcode =
    | ConditionalMove | LoadSegment | StoreSegment | Add | Multiply | Divide | NAND
    | Halt | Map | Unmap | Output | Input | LoadProgram | LoadValue

  /** `FromPrimitive::from_u32` for the opcode enumeration: the 14 opcodes are numbered
      0 to 13 in declaration order. */
  function OpcodeFromU32(n: u32): Option<Opcode>
  {
    match n
    case 0 => Some(ConditionalMove)
    case 1 => Some(LoadSegment)
    case 2 => Some(StoreSegment)
    case 3 => Some(Add)
    case 4 => Some(Multiply)
    case 5 => Some(Divide)
    case 6 => Some(NAND)
    case 7 => Some(Halt)
    case 8 => Some(Map)
    case 9 => Some(Unmap)
    case 10 => Some(Output)
    case 11 => Some(Input)
    case 12 => Some(LoadProgram)
    case 13 => Some(LoadValue)
    case _ => None
  }

  datatype Option<T> = None | Some(value: T)

  /** `(1 << bits) - 1`; the shift is rejected for 32 bits or more. */
  function Mask(bits: u32): u32
    requires bits < 32
  {
    Pow2Monotone(bits, 31);
    Pow2Constants();
    SmallDiv(Pow2(bits), 0x1_0000_0000);
    Shl32(1, bits) - 1
  }

  /** `(instruction >> field.lsb) & mask(field.width)`. */
  function Get(field: Field, instruction: u32): u32
    requires field.lsb < 32 && field.width < 32
  {
    var shifted := Shr32(instruction, field.lsb);
    var mask := Mask(field.width);
    AndBound(shifted, mask);
    And(shifted, mask)
  }

  /** The opcode of an instruction word, if it is one of the 14 defined opcodes. */
  function Op(instruction: u32): Option<Opcode>
  {
    OpcodeFromU32(Get(OP, instruction))
  }

  /** A mask of n bits is 2^n - 1. */
  lemma MaskValue(bits: u32)
    requires bits < 32
    ensures Mask(bits) == Pow2(bits) - 1
  {
    Pow2Monotone(bits, 31);
    Pow2Constants();
    SmallDiv(Pow2(bits), 0x1_0000_0000);
  }

  /** A field is the word divided by 2^lsb, reduced modulo 2^width. */
  lemma GetValue(field: Field, instruction: u32)
    requires field.lsb < 32 && field.width < 32
    ensures Get(field, instruction) == (instruction / Pow2(field.lsb)) % Pow2(field.width)
  {
    MaskValue(field.width);
    AndMask(Shr32(instruction, field.lsb), field.width);
  }

  /** This decoder agrees with the emulator's decoder on every field that fits in a word. */
  lemma GetAgreesWithGetBits(field: Field, instruction: u32)
    requires field.lsb < 32 && field.width < 32 && field.lsb + field.width <= 32
    ensures Get(field, instruction) == RumDis.GetBits(instruction, field.lsb, field.width)
  {
    GetValue(field, instruction);
    if field.width > 0 {
      RumDis.GetBitsValue(instruction, field.lsb, field.width);
    }
  }

  /** The six field constants describe the emulator's instruction layout. */
  lemma FieldsMatchLayout(instruction: u32)
    ensures var i := RumDis.Disassemble(instruction);
      Get(RA, instruction) == i.regA && Get(RB, instruction) == i.regB &&
      Get(RC, instruction) == i.regC && Get(RL, instruction) == i.regLoad &&
      Get(VL, instruction) == i.loadValue && Get(OP, instruction) == i.opcode
  {
    GetAgreesWithGetBits(RA, instruction);
    GetAgreesWithGetBits(RB, instruction);
    GetAgreesWithGetBits(RC, instruction);
    GetAgreesWithGetBits(RL, instruction);
    GetAgreesWithGetBits(VL, instruction);
    GetAgreesWithGetBits(OP, instruction);
  }

  /** The opcode is read from the top four bits. */
  lemma OpIsTopBits(instruction: u32)
    ensures Op(instruction) == OpcodeFromU32(instruction / 0x1000_0000)
  {
    GetAgreesWithGetBits(OP, instruction);
    RumDis.DisassembleFields(instruction);
  }

  /** `op` names an opcode exactly when the top four bits are 0 to 13. */
  lemma OpDefinedIff(instruction: u32)
    ensures Op(instruction).Some? <==> instruction / 0x1000_0000 <= 13
    ensures Op(instruction).None? <==> instruction / 0x1000_0000 in {14, 15}
  {
    OpIsTopBits(instruction);
    RumDis.DisassembleFields(instruction);
  }

  function DecimalDigit(d: nat): char
    requires d < 10
  {
    "0123456789"[d]
  }

  /** Rust's `{}` formatting of an unsigned integer: decimal, no leading zeros. */
  function Decimal(n: nat): string
  {
    if n < 10 then [DecimalDigit(n)] else Decimal(n / 10) + [DecimalDigit(n % 10)]
  }

  function DigitValue(c: char): nat
  {
    if '0' <= c <= '9' then (c as int) - ('0' as int) else 0
  }

  /** Reads a string of decimal digits back as a number. */
  function ParseDecimal(s: string): nat
  {
    if s == [] then 0 else 10 * ParseDecimal(s[..|s| - 1]) + DigitValue(s[|s| - 1])
  }

  predicate IsDigits(s: string)
  {
    forall i :: 0 <= i < |s| ==> '0' <= s[i] <= '9'
  }

  /** Decimal text is non-empty, made of digits, and reads back as the number. */
  lemma {:induction false} DecimalRoundTrip(n: nat)
    ensures |Decimal(n)| > 0 && IsDigits(Decimal(n))
    ensures ParseDecimal(Decimal(n)) == n
  {
    var s := Decimal(n);
    if n >= 10 {
      DecimalRoundTrip(n / 10);
      assert s[..|s| - 1] == Decimal(n / 10);
    }
  }

  function R(n: nat): string
  {
    "r" + Decimal(n)
  }

  /** The one-line description of an instruction word. */
  function Disassemble(inst: u32): string
  {
    match Op(inst)
    case Some(ConditionalMove) =>
      "if (" + R(Get(RC, inst)) + " != 0) then " + R(Get(RA, inst)) + " := " + R(Get(RB, inst))
    case Some(LoadSegment) =>
      R(Get(RA, inst)) + " := $m[" + R(Get(RB, inst)) + "][" + R(Get(RC, inst)) + "]"
    case Some(StoreSegment) =>
      "$m[" + R(Get(RA, inst)) + "][" + R(Get(RB, inst)) + "] := " + R(Get(RC, inst))
    case Some(Add) =>
      R(Get(RA, inst)) + " := (" + R(Get(RB, inst)) + " + " + R(Get(RC, inst)) + ") % 2^32"
    case Some(Multiply) =>
      R(Get(RA, inst)) + " := (" + R(Get(RB, inst)) + " * " + R(Get(RC, inst)) + ") % 2^32"
    case Some(Divide) =>
      R(Get(RA, inst)) + " := (" + R(Get(RB, inst)) + " / " + R(Get(RC, inst)) + ")"
    case Some(NAND) =>
      R(Get(RA, inst)) + " := !(" + R(Get(RB, inst)) + " & " + R(Get(RC, inst)) + ")"
    case Some(Halt) => "Halt."
    case Some(Map) =>
      R(Get(RB, inst)) + " loaded with the index of a free memory segment. New segment created at $m["
      + R(Get(RB, inst)) + "] with length = " + R(Get(RC, inst)) + " words and value = 0."
    case Some(Unmap) => "Memory segment $m[" + R(Get(RC, inst)) + "] unmapped."
    case Some(Output) => "Value in " + R(Get(RC, inst)) + " displayed on I/O device."
    case Some(Input) => "Loading I/O input into " + R(Get(RC, inst)) + "."
    case Some(LoadProgram) =>
      "Segment $m[" + R(Get(RB, inst)) + "] copied into $m[0]. Program counter set to "
      + R(Get(RC, inst)) + "."
    case Some(LoadValue) => R(Get(RL, inst)) + " := " + Decimal(Get(VL, inst))
    case None => "Invalid instruction " + Decimal(inst)
  }

  /** The text is "Halt." exactly for opcode 7. */
  lemma DisassembleHaltIff(inst: u32)
    ensures Disassemble(inst) == "Halt." <==> inst / 0x1000_0000 == 7
  {
    OpIsTopBits(inst);
    HaltTextIff(inst);
    var n: u32 := inst / 0x1000_0000;
    assert OpcodeFromU32(n) == Some(Halt) <==> n == 7;
  }

  /** Only the halt instruction is rendered as "Halt.": every other text starts with
      another character. */
  lemma HaltTextIff(inst: u32)
    ensures Disassemble(inst) == "Halt." <==> Op(inst) == Some(Halt)
  {
    match Op(inst)
    case Some(Halt) =>
    case Some(op) =>
      if op in {LoadSegment, Add, Multiply, Divide, NAND, Map, LoadValue} {
        RegisterFirstText(inst);
      } else {
        LiteralFirstText(inst);
      }
    case None => LiteralFirstText(inst);
  }

  /** The texts that open with a register name. */
  lemma RegisterFirstText(inst: u32)
    requires Op(inst).Some? && Op(inst).value in {LoadSegment, Add, Multiply, Divide, NAND, Map, LoadValue}
    ensures Disassemble(inst) != "Halt."
  {
    var t := Disassemble(inst);
    assert t[0] == 'r';
  }

  /** The texts that open with a fixed word. */
  lemma LiteralFirstText(inst: u32)
    requires Op(inst) !in {Some(Halt), Some(LoadSegment), Some(Add), Some(Multiply), Some(Divide),
                           Some(NAND), Some(Map), Some(LoadValue)}
    ensures Disassemble(inst) != "Halt."
  {
    var t := Disassemble(inst);
    match Op(inst)
    case Some(ConditionalMove) => assert t[0] == 'i';
    case Some(StoreSegment) => assert t[0] == '$';
    case Some(Unmap) => assert t[0] == 'M';
    case Some(Output) => assert t[0] == 'V';
    case Some(Input) => assert t[0] == 'L';
    case Some(LoadProgram) => assert t[0] == 'S';
    case None => assert t[0] == 'I';
  }

  /** Opcodes 14 and 15 are reported as invalid, followed by the whole word in decimal. */
  lemma DisassembleInvalid(inst: u32)
    requires inst / 0x1000_0000 >= 14
    ensures var t := Disassemble(inst);
      |t| > 20 && t[..20] == "Invalid instruction " && ParseDecimal(t[20..]) == inst
  {
    OpDefinedIff(inst);
    DecimalRoundTrip(inst);
    var t := Disassemble(inst);
    assert t[20..] == Decimal(inst);
  }

  /** An immediate load is rendered with its register and value. */
  lemma DisassembleLoadValue(register: nat, value: nat)
    requires register < 8 && value < 0x200_0000
    ensures Disassemble(RumDis.EncodeLoadValue(13, register, value))
      == "r" + Decimal(register) + " := " + Decimal(value)
  {
    var inst := RumDis.EncodeLoadValue(13, register, value);
    LoadValueFields(inst, register, value);
  }

  lemma LoadValueFields(inst: u32, register: nat, value: nat)
    requires register < 8 && value < 0x200_0000
    requires inst == RumDis.EncodeLoadValue(13, register, value)
    ensures Op(inst) == Some(LoadValue) && Get(RL, inst) == register && Get(VL, inst) == value
  {
    RumDis.LoadValueDigits(13, register, value);
    assert inst / 0x1000_0000 == 13 && (inst / 0x200_0000) % 8 == register && inst % 0x200_0000 == value;
    assert Op(inst) == Some(LoadValue) by { OpIsTopBits(inst); }
    assert Get(RL, inst) == register && Get(VL, inst) == value by {
      FieldsMatchLayout(inst);
      RumDis.DisassembleFields(inst);
    }
  }
}
