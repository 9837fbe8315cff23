/** The Universal Machine instruction decoder (a 32-bit word is split into unsigned bit
    fields at fixed offsets).  Every field is extracted by shifting the word left to drop
    the bits above the field and then right to drop the bits below it. */
module RumDis {
  import opened Words

  /** A decoded instruction; not every field is meaningful for every opcode. */
  datatype Instruction = Instruction(
    opcode: u32,
    regA: u32,
    regB: u32,
    regC: u32,
    regLoad: u32,
    loadValue: u32)

  const WORD_SIZE: nat := 32

  /** The `width`-bit field of `word` whose least significant bit is `lsb`.  The source
      computes `WORD_SIZE - (lsb + width)` on u8 and shifts by it, so a field reaching
      past bit 31 is rejected; a field of width 0 is 0 wherever it sits. */
  function GetBits(word: u32, lsb: u8, width: u8): u32
    requires width == 0 || lsb + width <= WORD_SIZE
  {
    if width == 0 then 0
    else
      var magnitude := WORD_SIZE - (lsb + width);
      var lhsRemoved := Shr32(Shl32(word, magnitude), magnitude);
      Shr32(lhsRemoved, lsb)
  }

  /** Decodes one word: opcode at bit 28 (4 bits), A at 6, B at 3, C at 0 (3 bits each),
      the load register at 25 (3 bits) and the immediate at 0 (25 bits). */
  function Disassemble(word: u32): Instruction
  {
    Instruction(
      GetBits(word, 28, 4),
      GetBits(word, 6, 3),
      GetBits(word, 3, 3),
      GetBits(word, 0, 3),
      GetBits(word, 25, 3),
      GetBits(word, 0, 25))
  }

  /** A field is the word divided by 2^lsb, reduced modulo 2^width. */
  lemma GetBitsValue(word: u32, lsb: u8, width: u8)
    requires lsb + width <= WORD_SIZE
    ensures GetBits(word, lsb, width) == (word / Pow2(lsb)) % Pow2(width)
  {
    if width > 0 {
      var L := lsb + width;
      var m := WORD_SIZE - L;
      var pL, pm := Pow2(L), Pow2(m);
      assert GetBits(word, lsb, width) == (word % pL) / Pow2(lsb) by {
        assert pL * pm == 0x1_0000_0000 by {
          Pow2Add(L, m);
          assert L + m == 32;
          Pow2Constants();
        }
        assert Shl32(word, m) == (word % pL) * pm by {
          MulMod(word, pL, pm);
        }
        assert Shr32(Shl32(word, m), m) == word % pL by {
          MulDiv(word % pL, pm);
        }
      }
      assert (word % pL) / Pow2(lsb) == (word / Pow2(lsb)) % Pow2(width) by {
        Pow2Add(width, lsb);
        assert pL == Pow2(lsb) * Pow2(width);
        DivModSplit(word, Pow2(lsb), Pow2(width));
      }
    }
  }

  /** Each field of a decoded instruction, as arithmetic on the word, and its range. */
  lemma DisassembleFields(word: u32)
    ensures Disassemble(word).opcode == word / 0x1000_0000 < 16
    ensures Disassemble(word).regA == (word / 64) % 8
    ensures Disassemble(word).regB == (word / 8) % 8
    ensures Disassemble(word).regC == word % 8
    ensures Disassemble(word).regLoad == (word / 0x200_0000) % 8
    ensures Disassemble(word).loadValue == word % 0x200_0000
  {
    Pow2Constants();
    GetBitsValue(word, 28, 4);
    GetBitsValue(word, 6, 3);
    GetBitsValue(word, 3, 3);
    GetBitsValue(word, 0, 3);
    GetBitsValue(word, 25, 3);
    GetBitsValue(word, 0, 25);
    SmallDiv(word / 0x1000_0000, 16);
  }

  /** Every decoded register number names one of the eight registers and the
      immediate fits in 25 bits. */
  lemma DisassembleBounds(word: u32)
    ensures Disassemble(word).opcode < 16
    ensures Disassemble(word).regA < 8 && Disassemble(word).regB < 8
    ensures Disassemble(word).regC < 8 && Disassemble(word).regLoad < 8
    ensures Disassemble(word).loadValue < 0x200_0000
  {
    DisassembleFields(word);
  }

  /** The opcode, load register and immediate fields tile the whole word. */
  lemma LoadFieldsRoundTrip(word: u32)
    ensures var i := Disassemble(word);
      i.opcode * 0x1000_0000 + i.regLoad * 0x200_0000 + i.loadValue == word
  {
    DisassembleFields(word);
    DivModSplit(word, 0x200_0000, 8);
    assert word == (word / 0x200_0000) * 0x200_0000 + word % 0x200_0000;
    assert word / 0x200_0000 == (word / 0x200_0000 / 8) * 8 + (word / 0x200_0000) % 8;
  }

  /** The three register fields tile the low nine bits of the word. */
  lemma RegisterFieldsRoundTrip(word: u32)
    ensures var i := Disassemble(word);
      i.regA * 64 + i.regB * 8 + i.regC == word % 512
  {
    DisassembleFields(word);
    DivModSplit(word, 8, 64);
    DivModSplit(word, 8, 8);
    DivModSplit(word / 8, 8, 8);
    DivModSplit(word, 64, 8);
  }

  /** The word of a three-register instruction (the layout the decoder reads). */
  function EncodeRegisters(opcode: nat, a: nat, b: nat, c: nat): u32
    requires opcode < 16 && a < 8 && b < 8 && c < 8
  {
    opcode * 0x1000_0000 + a * 64 + b * 8 + c
  }

  /** The word of an immediate-load instruction. */
  function EncodeLoadValue(opcode: nat, register: nat, value: nat): u32
    requires opcode < 16 && register < 8 && value < 0x200_0000
  {
    opcode * 0x1000_0000 + register * 0x200_0000 + value
  }

  /** Decoding a three-register instruction word gives back its fields. */
  lemma DecodeEncodeRegisters(opcode: nat, a: nat, b: nat, c: nat)
    requires opcode < 16 && a < 8 && b < 8 && c < 8
    ensures var i := Disassemble(EncodeRegisters(opcode, a, b, c));
      i.opcode == opcode && i.regA == a && i.regB == b && i.regC == c
  {
    var w := EncodeRegisters(opcode, a, b, c);
    RegisterDigits(opcode, a, b, c);
    assert w / 0x1000_0000 == opcode && (w / 64) % 8 == a && (w / 8) % 8 == b && w % 8 == c;
    DisassembleFields(w);
  }

  /** The digits of `opcode * 2^28 + a * 64 + b * 8 + c` at the register positions. */
  lemma RegisterDigits(opcode: nat, a: nat, b: nat, c: nat)
    requires opcode < 16 && a < 8 && b < 8 && c < 8
    ensures var w := opcode * 0x1000_0000 + a * 64 + b * 8 + c;
      w / 0x1000_0000 == opcode && (w / 64) % 8 == a && (w / 8) % 8 == b && w % 8 == c
  {
    var w := opcode * 0x1000_0000 + a * 64 + b * 8 + c;
    DivModUnique(w, 0x1000_0000, opcode, a * 64 + b * 8 + c);
    DivModUnique(w, 64, opcode * 0x40_0000 + a, b * 8 + c);
    DivModUnique(opcode * 0x40_0000 + a, 8, opcode * 0x8_0000, a);
    DivModUnique(w, 8, opcode * 0x200_0000 + a * 8 + b, c);
    DivModUnique(opcode * 0x200_0000 + a * 8 + b, 8, opcode * 0x40_0000 + a, b);
  }

  /** Decoding an immediate-load word gives back its opcode, register and value. */
  lemma DecodeEncodeLoadValue(opcode: nat, register: nat, value: nat)
    requires opcode < 16 && register < 8 && value < 0x200_0000
    ensures var i := Disassemble(EncodeLoadValue(opcode, register, value));
      i.opcode == opcode && i.regLoad == register && i.loadValue == value
  {
    var w := EncodeLoadValue(opcode, register, value);
    LoadValueDigits(opcode, register, value);
    assert w / 0x1000_0000 == opcode && (w / 0x200_0000) % 8 == register && w % 0x200_0000 == value;
    DisassembleFields(w);
  }

  /** The digits of `opcode * 2^28 + register * 2^25 + value` at the load positions. */
  lemma LoadValueDigits(opcode: nat, register: nat, value: nat)
    requires opcode < 16 && register < 8 && value < 0x200_0000
    ensures var w := opcode * 0x1000_0000 + register * 0x200_0000 + value;
      w / 0x1000_0000 == opcode && (w / 0x200_0000) % 8 == register && w % 0x200_0000 == value
  {
    var low := register * 0x200_0000 + value;
    DivAddMultiple(low, opcode, 0x1000_0000);
    SmallDiv(low, 0x1000_0000);
    DivAddMultiple(value, opcode * 8 + register, 0x200_0000);
    SmallDiv(value, 0x200_0000);
    DivAddMultiple(register, opcode, 8);
    SmallDiv(register, 8);
  }

  /** The decoder's two unit tests. */
  lemma DisassembleTestVectors()
    ensures var i := Disassemble(0x1000_0195);
      i.opcode == 1 && i.regA == 6 && i.regB == 2 && i.regC == 5
    ensures var i := Disassemble(0xDF34_A951);
      i.opcode == 13 && i.regLoad == 7 && i.loadValue == 20228433
  {
    assert 0x1000_0195 == EncodeRegisters(1, 6, 2, 5);
    DecodeEncodeRegisters(1, 6, 2, 5);
    assert 0xDF34_A951 == EncodeLoadValue(13, 7, 20228433);
    DecodeEncodeLoadValue(13, 7, 20228433);
  }
}
