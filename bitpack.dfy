/** The bit-packing library: tests whether a value fits in a field of a 64-bit word, and
    reads and replaces unsigned and two's-complement signed fields given by a width and
    the position of their least significant bit.  Every function works by shifting the
    word left and right, with shifts of 64 bits or more defined explicitly. */
module Bitpack {
  import opened Words
  import opened Bits

  const WORD_SIZE: nat := 64

  /** The number of distinct u64 values. */
  const U64_RANGE: nat := 0x1_0000_0000_0000_0000

  datatype Option<T> = None | Some(value: T)

  /** Rust `x << m` on a u64 for m < 64: bits shifted past bit 63 are lost. */
  function Shl64(x: u64, m: nat): u64
    requires m < 64
  {
    (x * Pow2(m)) % U64_RANGE
  }

  /** `shift_left`: a shift by the word size or more gives 0. */
  function ShiftLeft(word: u64, magnitude: u64): u64
  {
    if magnitude >= WORD_SIZE then 0 else Shl64(word, magnitude)
  }

  /** `logical_shift_right`: a shift by the word size or more gives 0. */
  function LogicalShiftRight(word: u64, magnitude: u64): u64
  {
    if magnitude >= WORD_SIZE then 0
    else
      DivLe(word, Pow2(magnitude));
      word / Pow2(magnitude)
  }

  /** `arithmetic_shift_right`: `>>` on an i64 rounds towards minus infinity; a shift by the
      word size or more gives i64::MIN for a negative word and 0 otherwise. */
  function ArithmeticShiftRight(word: i64, magnitude: u64): i64
  {
    if magnitude >= WORD_SIZE then (if word < 0 then I64_MIN else 0)
    else
      DivBounds(word, Pow2(magnitude));
      word / Pow2(magnitude)
  }

  /** `x as i64`: the same 64 bits read as two's complement. */
  function AsI64(x: u64): i64
  {
    if x >= 0x8000_0000_0000_0000 then x - U64_RANGE else x
  }

  /** `x as u64`: the two's-complement bits of a signed value. */
  function AsU64(x: i64): u64
  {
    x % U64_RANGE
  }

  /** `fitss`: whether `n` fits in `width` signed bits.  For widths from 2 to 63 the bounds
      are `-(2 << (width - 2))` and `(2 << (width - 2)) - 1`; that shift never reaches the
      sign bit, so it is the same on i64 as on u64. */
  function Fitss(n: i64, width: u64): bool
  {
    if width == 0 then false
    else if width == 1 then n == 0 || n == -1
    else if width >= WORD_SIZE then true
    else
      var bound: int := Shl64(2, width - 2);
      var lower := -bound;
      var upper := bound - 1;
      lower <= n && n <= upper
  }

  /** `fitsu`: whether `n` fits in `width` unsigned bits. */
  function Fitsu(n: u64, width: u64): bool
  {
    if width == 0 then false
    else if width >= WORD_SIZE then true
    else n < Shl64(2, width - 1)
  }

  /** `getu`: the unsigned field; the source asserts that the field lies inside the word. */
  function Getu(word: u64, width: u64, lsb: u64): u64
    requires width + lsb <= WORD_SIZE
  {
    if width == 0 then 0
    else
      var magnitude := WORD_SIZE - (lsb + width);
      var lhsRemoved := LogicalShiftRight(ShiftLeft(word, magnitude), magnitude);
      LogicalShiftRight(lhsRemoved, lsb)
  }

  /** `gets`: the signed field, its top bit copied into every higher bit. */
  function Gets(word: u64, width: u64, lsb: u64): i64
    requires width + lsb <= WORD_SIZE
  {
    if width == 0 then 0
    else
      var magnitude := WORD_SIZE - (lsb + width);
      var lhsRemoved := ArithmeticShiftRight(AsI64(ShiftLeft(word, magnitude)), magnitude);
      ArithmeticShiftRight(lhsRemoved, lsb)
  }

  /** `newu`: the word with the field replaced by `value`, or None when the value does not
      fit.  Only a fitting value reaches the u64 sums `width + lsb` and `WORD_SIZE - lsb`,
      which panic on overflow, so only then are the bounds demanded. */
  function Newu(word: u64, width: u64, lsb: u64, value: u64): Option<u64>
    requires Fitsu(value, width) ==> lsb <= WORD_SIZE && width + lsb < U64_RANGE
  {
    if !Fitsu(value, width) then None
    else
      var lhsMagnitude := width + lsb;
      var lhs := ShiftLeft(LogicalShiftRight(word, lhsMagnitude), lhsMagnitude);
      var rhsMagnitude := WORD_SIZE - lsb;
      var rhs := LogicalShiftRight(ShiftLeft(word, rhsMagnitude), rhsMagnitude);
      var valueShifted := ShiftLeft(value, lsb);
      Pow2Word();
      OrBound(lhs, valueShifted, 64);
      OrBound(Or(lhs, valueShifted), rhs, 64);
      Some(Or(Or(lhs, valueShifted), rhs))
  }

  /** `news`: the word with the field replaced by the low `width` bits of `value`'s two's
      complement, or None when the value does not fit.  Only a fitting value reaches the u64
      difference `WORD_SIZE - width`, so only then may the width not exceed the word. */
  function News(word: u64, width: u64, lsb: u64, value: i64): Option<u64>
    requires Fitss(value, width) ==> width <= WORD_SIZE && lsb <= WORD_SIZE
  {
    if !Fitss(value, width) then None
    else
      var magnitude := WORD_SIZE - width;
      var adjusted := LogicalShiftRight(ShiftLeft(AsU64(value), magnitude), magnitude);
      Newu(word, width, lsb, adjusted)
  }

  /** The signed value of a `width`-bit two's-complement field. */
  function SignExtend(field: nat, width: nat): int
    requires width > 0
  {
    if field >= Pow2(width - 1) then field - Pow2(width) else field
  }

  /** The unsigned field, arithmetically. */
  function Field(word: nat, width: nat, lsb: nat): nat
  {
    (word / Pow2(lsb)) % Pow2(width)
  }

  // ---------------------------------------------------------------------------------
  // Arithmetic of the shifts

  lemma DivBounds(x: int, d: int)
    requires d >= 1
    ensures x >= 0 ==> 0 <= x / d <= x
    ensures x < 0 ==> x <= x / d < 0
  {
    if x >= 0 {
      DivLe(x, d);
    } else {
      var q, r := x / d, x % d;
      assert x == q * d + r;
      if q >= 0 {
        MulLe(0, q, d);
      }
      if q < x {
        MulLe(q, x - 1, d);
        MulLe(x, 0, d - 1);
      }
    }
  }

  /** A left shift keeps the low 64 - m bits and moves them up. */
  lemma Shl64Value(x: u64, m: nat)
    requires m < 64
    ensures Shl64(x, m) == (x % Pow2(64 - m)) * Pow2(m)
  {
    Pow2Word();
    Pow2Add(64 - m, m);
    MulMod(x, Pow2(64 - m), Pow2(m));
  }

  /** Shifting left and back right by 64 - k keeps the low k bits. */
  lemma KeepLow(word: u64, k: nat)
    requires k <= 64
    ensures LogicalShiftRight(ShiftLeft(word, 64 - k), 64 - k) == word % Pow2(k)
  {
    if k > 0 {
      Shl64Value(word, 64 - k);
      MulDiv(word % Pow2(k), Pow2(64 - k));
    }
  }

  /** Shifting right and back left by k clears the low k bits. */
  lemma KeepHigh(word: u64, k: nat)
    requires k <= 64
    ensures ShiftLeft(LogicalShiftRight(word, k), k) == word / Pow2(k) * Pow2(k)
  {
    Pow2Word();
    if k < 64 {
      var p := Pow2(k);
      DivMulLe(word, p);
      SmallDiv(word / p * p, U64_RANGE);
    } else {
      SmallDiv(word, U64_RANGE);
    }
  }

  /** A value that fits after the shift is shifted exactly. */
  lemma ShiftLeftExact(x: u64, m: nat, n: nat)
    requires m < 64 && m + n <= 64 && x < Pow2(n)
    ensures ShiftLeft(x, m) == x * Pow2(m) < Pow2(m + n)
  {
    Pow2Word();
    var pm, pn := Pow2(m), Pow2(n);
    Pow2Add(n, m);
    assert n + m == m + n;
    MulLt(x, pn, pm);
    Pow2Monotone(m + n, 64);
    SmallDiv(x * pm, U64_RANGE);
  }

  lemma Pow2Step(n: nat)
    requires n > 0
    ensures Pow2(n) == 2 * Pow2(n - 1)
  {
  }

  /** The splitting of the low lsb + width bits into the field and the bits below it. */
  lemma FieldSplit(word: nat, width: nat, lsb: nat)
    ensures word % Pow2(lsb + width) == Field(word, width, lsb) * Pow2(lsb) + word % Pow2(lsb)
    ensures (word % Pow2(lsb + width)) / Pow2(lsb) == Field(word, width, lsb)
  {
    Pow2Add(lsb, width);
    DivModSplit(word, Pow2(lsb), Pow2(width));
  }

  // ---------------------------------------------------------------------------------
  // The fits tests

  /** `fitsu(n, w)` holds exactly when w > 0 and n <= 2^w - 1. */
  lemma FitsuIff(n: u64, width: u64)
    ensures Fitsu(n, width) <==> width > 0 && n <= Pow2(width) - 1
  {
    Pow2Word();
    if width >= 64 {
      Pow2Monotone(64, width);
    } else if width > 0 {
      Pow2Monotone(width, 63);
      Pow2Step(width);
      SmallDiv(Pow2(width), U64_RANGE);
    }
  }

  /** `fitss(n, w)` is false for w = 0 and otherwise holds exactly when
      -2^(w-1) <= n <= 2^(w-1) - 1. */
  lemma FitssIff(n: i64, width: u64)
    ensures width == 0 ==> !Fitss(n, width)
    ensures width > 0 ==> (Fitss(n, width) <==> -(Pow2(width - 1) as int) <= n <= Pow2(width - 1) - 1)
  {
    Pow2Word();
    if width >= 64 {
      Pow2Monotone(63, width - 1);
    } else if width >= 2 {
      Pow2Monotone(width - 1, 63);
      Pow2Step(width - 1);
      SmallDiv(Pow2(width - 1), U64_RANGE);
    }
  }

  // ---------------------------------------------------------------------------------
  // Reading fields

  /** `getu` is the field: the word divided by 2^lsb, reduced modulo 2^width (0 for width 0). */
  lemma GetuValue(word: u64, width: u64, lsb: u64)
    requires width + lsb <= WORD_SIZE
    ensures Getu(word, width, lsb) == Field(word, width, lsb)
  {
    if width > 0 {
      KeepLow(word, lsb + width);
      FieldSplit(word, width, lsb);
    }
  }

  /** `gets` is the field sign-extended from its top bit. */
  lemma GetsValue(word: u64, width: u64, lsb: u64)
    requires width + lsb <= WORD_SIZE
    ensures width == 0 ==> Gets(word, width, lsb) == 0
    ensures width > 0 ==> Gets(word, width, lsb) == SignExtend(Field(word, width, lsb), width)
  {
    if width > 0 {
      var m := WORD_SIZE - (lsb + width);
      var f := Field(word, width, lsb);
      var lo := word % Pow2(lsb);
      var pl, pm := Pow2(lsb), Pow2(m);
      var s := SignExtend(f, width);
      var x := ShiftLeft(word, m);
      assert AsI64(x) == (s * pl + lo) * pm by {
        ShiftedField(word, width, lsb);
        var p := Pow2(lsb + m);
        SignedReading(x, f, lo * pm, width, p);
        Pow2Add(lsb, m);
        MulAddDistrib(s, pl, lo, pm);
      }
      assert lo < pl;
      ShiftBackDown(AsI64(x), s, lo, lsb, m);
    }
  }

  /** Arithmetic shifts right by m and then by lsb undo multiplying by 2^m and 2^lsb. */
  lemma ShiftBackDown(y: i64, s: int, lo: nat, lsb: nat, m: nat)
    requires m < 64 && lsb < 64 && lo < Pow2(lsb)
    requires y == (s * Pow2(lsb) + lo) * Pow2(m)
    ensures ArithmeticShiftRight(ArithmeticShiftRight(y, m), lsb) == s
  {
    var pl, pm := Pow2(lsb), Pow2(m);
    MulDiv(s * pl + lo, pm);
    var z := ArithmeticShiftRight(y, m);
    assert z == s * pl + lo;
    DivModUnique(z, pl, s, lo);
  }

  /** Shifting a field to the top of the word: the field lands at bit lsb + m and the bits
      below it at bit m, where m is the number of bits above the field. */
  lemma ShiftedField(word: u64, width: u64, lsb: u64)
    requires width + lsb <= WORD_SIZE && width > 0
    ensures var m := WORD_SIZE - (lsb + width);
      var lo := word % Pow2(lsb);
      ShiftLeft(word, m) == Field(word, width, lsb) * Pow2(lsb + m) + lo * Pow2(m) &&
      lo * Pow2(m) < Pow2(lsb + m) &&
      Pow2(width) * Pow2(lsb + m) == U64_RANGE &&
      Pow2(width - 1) * Pow2(lsb + m) == 0x8000_0000_0000_0000
  {
    var m := WORD_SIZE - (lsb + width);
    var f := Field(word, width, lsb);
    var lo := word % Pow2(lsb);
    var pl, pm := Pow2(lsb), Pow2(m);
    Shl64Value(word, m);
    FieldSplit(word, width, lsb);
    Pow2Add(lsb, m);
    MulAddDistrib(f, pl, lo, pm);
    MulLt(lo, pl, pm);
    Pow2Word();
    Pow2Add(width, lsb + m);
    Pow2Add(width - 1, lsb + m);
  }

  /** Reading a word whose top bits hold the field `f` as an i64 gives the sign-extended
      field in those bits. */
  lemma SignedReading(x: u64, f: nat, low: nat, width: nat, p: nat)
    requires width > 0 && p >= 1 && low < p && x == f * p + low
    requires Pow2(width) * p == U64_RANGE
    requires Pow2(width - 1) * p == 0x8000_0000_0000_0000
    ensures AsI64(x) == SignExtend(f, width) * p + low
  {
    var h, w := Pow2(width - 1), Pow2(width);
    TopBit(x, f, low, p, h);
    assert (f - w) * p == f * p - w * p;
  }

  /** A number made of `f` units of p and a remainder reaches h units exactly when f does. */
  lemma TopBit(x: int, f: int, low: int, p: int, h: int)
    requires p >= 1 && 0 <= low < p && x == f * p + low
    ensures x >= h * p <==> f >= h
  {
    if f >= h {
      MulLe(h, f, p);
    } else {
      MulLe(f + 1, h, p);
      assert (f + 1) * p == f * p + p;
    }
  }

  /** A field whose top bit is 0 reads the same signed and unsigned. */
  lemma GetsAgreesWithGetu(word: u64, width: u64, lsb: u64)
    requires width + lsb <= WORD_SIZE && width > 0
    ensures Getu(word, width, lsb) < Pow2(width - 1) <==> Gets(word, width, lsb) == Getu(word, width, lsb)
    ensures Getu(word, width, lsb) >= Pow2(width - 1) ==>
      Gets(word, width, lsb) == Getu(word, width, lsb) - Pow2(width)
  {
    GetuValue(word, width, lsb);
    GetsValue(word, width, lsb);
  }

  // ---------------------------------------------------------------------------------
  // Replacing fields

  /** `newu` fails exactly when the value does not fit. */
  lemma NewuNoneIff(word: u64, width: u64, lsb: u64, value: u64)
    requires Fitsu(value, width) ==> lsb <= WORD_SIZE && width + lsb < U64_RANGE
    ensures Newu(word, width, lsb, value).None? <==> !(width > 0 && value <= Pow2(width) - 1)
  {
    FitsuIff(value, width);
  }

  /** The word `newu` builds: the bits above the field, the value, and the bits below. */
  lemma NewuValue(word: u64, width: u64, lsb: u64, value: u64)
    requires width + lsb <= WORD_SIZE && Fitsu(value, width)
    ensures var top := Pow2(width + lsb);
      Newu(word, width, lsb, value)
        == Some(word / top * top + value * Pow2(lsb) + word % Pow2(lsb))
  {
    NewuFactored(word, width, lsb, value);
  }

  /** The same word as `q * 2^(width + lsb) + value * 2^lsb + low`, where q holds the bits
      above the field and `low` the bits below it. */
  lemma NewuFactored(word: u64, width: u64, lsb: u64, value: u64)
    requires width + lsb <= WORD_SIZE && Fitsu(value, width)
    ensures var top, pw, pl := Pow2(width + lsb), Pow2(width), Pow2(lsb);
      var q, lo := word / top, word % pl;
      Newu(word, width, lsb, value).Some? && top == pw * pl && value < pw && lo < pl &&
      Newu(word, width, lsb, value).value == q * top + value * pl + lo
  {
    FitsuIff(value, width);
    var k := width + lsb;
    var top, pw, pl := Pow2(k), Pow2(width), Pow2(lsb);
    var q := word / top;
    var lhs := ShiftLeft(LogicalShiftRight(word, k), k);
    KeepHigh(word, k);
    var rhs := LogicalShiftRight(ShiftLeft(word, WORD_SIZE - lsb), WORD_SIZE - lsb);
    KeepLow(word, lsb);
    var vs := ShiftLeft(value, lsb);
    ShiftLeftExact(value, lsb, width);
    Pow2Add(width, lsb);
    MulDiv(q, top);
    OrDisjoint(lhs, vs, k);
    var c := q * pw + value;
    MulAddDistrib(q, pw, value, pl);
    assert lhs == q * (pw * pl) && vs == value * pl;
    var both := Or(lhs, vs);
    assert both == c * pl;
    MulDiv(c, pl);
    assert both % pl == 0 && rhs < pl;
    OrDisjoint(both, rhs, lsb);
  }

  /** Reading back a field written by `newu` gives the value written. */
  lemma NewuGetu(word: u64, width: u64, lsb: u64, value: u64)
    requires width + lsb <= WORD_SIZE && Fitsu(value, width)
    ensures Newu(word, width, lsb, value).Some?
    ensures Getu(Newu(word, width, lsb, value).value, width, lsb) == value
  {
    NewuFactored(word, width, lsb, value);
    var r := Newu(word, width, lsb, value).value;
    var top, pw, pl := Pow2(width + lsb), Pow2(width), Pow2(lsb);
    DigitOfFactored(r, word / top, pw, value, pl, word % pl, top);
    GetuValue(r, width, lsb);
  }

  /** The digit `value` of `q * top + value * pl + lo`, with top = pw * pl, reads back as
      itself. */
  lemma DigitOfFactored(r: int, q: int, pw: int, value: int, pl: int, lo: int, top: int)
    requires pw > 0 && pl > 0 && 0 <= value < pw && 0 <= lo < pl && top == pw * pl
    requires r == q * top + value * pl + lo
    ensures (r / pl) % pw == value
  {
    MulAddDistrib(q, pw, value, pl);
    DivModUnique(r, pl, q * pw + value, lo);
    DivModUnique(q * pw + value, pw, q, value);
  }

  /** `newu` keeps every bit above the field and every bit below it. */
  lemma NewuKeepsOtherBits(word: u64, width: u64, lsb: u64, value: u64)
    requires width + lsb <= WORD_SIZE && Fitsu(value, width)
    ensures Newu(word, width, lsb, value).Some?
    ensures var r := Newu(word, width, lsb, value).value;
      r / Pow2(width + lsb) == word / Pow2(width + lsb) && r % Pow2(lsb) == word % Pow2(lsb)
  {
    NewuFactored(word, width, lsb, value);
    var r := Newu(word, width, lsb, value).value;
    var top, pw, pl := Pow2(width + lsb), Pow2(width), Pow2(lsb);
    var q, lo := word / top, word % pl;
    OtherDigitsOfFactored(r, q, pw, value, pl, lo, top);
  }

  /** The digits of `q * top + value * pl + lo` above `top` and below `pl` are q and lo. */
  lemma OtherDigitsOfFactored(r: int, q: int, pw: int, value: int, pl: int, lo: int, top: int)
    requires pw > 0 && pl > 0 && 0 <= value < pw && 0 <= lo < pl && top == pw * pl
    requires r == q * top + value * pl + lo
    ensures r / top == q && r % pl == lo
  {
    DigitBound(value, pw, lo, pl);
    MulAddDistrib(q, pw, value, pl);
    DivModUnique(r, top, q, value * pl + lo);
    DivModUnique(r, pl, q * pw + value, lo);
  }

  /** A field entirely above or entirely below the one `newu` wrote reads as before. */
  lemma NewuFrame(word: u64, width: u64, lsb: u64, value: u64, width2: u64, lsb2: u64)
    requires width + lsb <= WORD_SIZE && Fitsu(value, width)
    requires width2 + lsb2 <= WORD_SIZE
    requires lsb2 >= width + lsb || lsb2 + width2 <= lsb
    ensures Newu(word, width, lsb, value).Some?
    ensures var r := Newu(word, width, lsb, value).value;
      Getu(r, width2, lsb2) == Getu(word, width2, lsb2) &&
      Gets(r, width2, lsb2) == Gets(word, width2, lsb2)
  {
    NewuKeepsOtherBits(word, width, lsb, value);
    var r := Newu(word, width, lsb, value).value;
    SameBitsSameField(r, word, width, lsb, width2, lsb2);
    GetuValue(r, width2, lsb2);
    GetuValue(word, width2, lsb2);
    GetsValue(r, width2, lsb2);
    GetsValue(word, width2, lsb2);
  }

  /** Two words that agree above bit width + lsb and below bit lsb agree on every field
      outside that range. */
  lemma SameBitsSameField(r: nat, word: nat, width: nat, lsb: nat, width2: nat, lsb2: nat)
    requires r / Pow2(width + lsb) == word / Pow2(width + lsb)
    requires r % Pow2(lsb) == word % Pow2(lsb)
    requires lsb2 >= width + lsb || lsb2 + width2 <= lsb
    ensures Field(r, width2, lsb2) == Field(word, width2, lsb2)
  {
    var k := width + lsb;
    if lsb2 >= k {
      var d: nat := lsb2 - k;
      Pow2Add(k, d);
      DivModSplit(r, Pow2(k), Pow2(d));
      DivModSplit(word, Pow2(k), Pow2(d));
    } else {
      var e: nat := lsb - (lsb2 + width2);
      var j := lsb2 + width2;
      Pow2Add(j, e);
      DivModSplit(r, Pow2(j), Pow2(e));
      DivModSplit(word, Pow2(j), Pow2(e));
      FieldSplit(r, width2, lsb2);
      FieldSplit(word, width2, lsb2);
    }
  }

  /** `news` fails exactly when `fitss` does. */
  lemma NewsNoneIff(word: u64, width: u64, lsb: u64, value: i64)
    requires Fitss(value, width) ==> width <= WORD_SIZE && lsb <= WORD_SIZE
    ensures News(word, width, lsb, value).None? <==> !Fitss(value, width)
  {
    if Fitss(value, width) {
      NewsIsNewu(word, width, lsb, value);
    }
  }

  /** When the value fits, `news` writes its low `width` two's-complement bits with `newu`. */
  lemma NewsIsNewu(word: u64, width: u64, lsb: u64, value: i64)
    requires width <= WORD_SIZE && lsb <= WORD_SIZE && Fitss(value, width)
    ensures value % Pow2(width) < U64_RANGE && Fitsu(value % Pow2(width), width)
    ensures News(word, width, lsb, value) == Newu(word, width, lsb, value % Pow2(width))
  {
    FitssIff(value, width);
    Pow2Word();
    KeepLow(AsU64(value), width);
    Pow2Add(width, 64 - width);
    DivModSplit(value, Pow2(width), Pow2(64 - width));
    Pow2Monotone(width, 64);
    FitsuIff(value % Pow2(width), width);
  }

  /** The w-bit two's complement of a value that fits in w signed bits sign-extends back. */
  lemma SignExtendResidue(value: int, width: nat)
    requires width > 0 && -(Pow2(width - 1) as int) <= value <= Pow2(width - 1) - 1
    ensures SignExtend(value % Pow2(width), width) == value
  {
    Pow2Step(width);
    if value >= 0 {
      SmallDiv(value, Pow2(width));
    } else {
      DivModUnique(value, Pow2(width), -1, value + Pow2(width));
    }
  }

  /** Reading back a field written by `news` with `gets` gives the signed value written. */
  lemma NewsGets(word: u64, width: u64, lsb: u64, value: i64)
    requires width + lsb <= WORD_SIZE && Fitss(value, width)
    ensures News(word, width, lsb, value).Some?
    ensures Gets(News(word, width, lsb, value).value, width, lsb) == value
  {
    NewsIsNewu(word, width, lsb, value);
    FitssIff(value, width);
    var adjusted := value % Pow2(width);
    NewuGetu(word, width, lsb, adjusted);
    var r := News(word, width, lsb, value).value;
    GetuValue(r, width, lsb);
    GetsValue(r, width, lsb);
    SignExtendResidue(value, width);
  }

  /** A field outside the one `news` wrote reads as before, signed or unsigned. */
  lemma NewsFrame(word: u64, width: u64, lsb: u64, value: i64, width2: u64, lsb2: u64)
    requires width + lsb <= WORD_SIZE && Fitss(value, width)
    requires width2 + lsb2 <= WORD_SIZE
    requires lsb2 >= width + lsb || lsb2 + width2 <= lsb
    ensures News(word, width, lsb, value).Some?
    ensures var r := News(word, width, lsb, value).value;
      Getu(r, width2, lsb2) == Getu(word, width2, lsb2) &&
      Gets(r, width2, lsb2) == Gets(word, width2, lsb2)
  {
    NewsIsNewu(word, width, lsb, value);
    NewuFrame(word, width, lsb, value % Pow2(width), width2, lsb2);
  }

  /** A non-negative value that fits in w signed bits is written the same by `news` and
      `newu`. */
  lemma NewsAgreesWithNewu(word: u64, width: u64, lsb: u64, value: u64)
    requires width <= WORD_SIZE && lsb <= WORD_SIZE && value < 0x8000_0000_0000_0000
    requires Fitss(value, width)
    ensures News(word, width, lsb, value) == Newu(word, width, lsb, value)
  {
    NewsIsNewu(word, width, lsb, value);
    FitssIff(value, width);
    Pow2Step(width);
    SmallDiv(value, Pow2(width));
  }

  // ---------------------------------------------------------------------------------
  // The unit tests

  /** The shift unit tests, including shifts by 64 and more. */
  lemma ShiftTestVectors()
    ensures ShiftLeft(3, 2) == 12 && ShiftLeft(10, 64) == 0 && ShiftLeft(10, 1000) == 0
    ensures LogicalShiftRight(12, 2) == 3 && LogicalShiftRight(10, 64) == 0
    ensures LogicalShiftRight(10, 1000) == 0
    ensures ArithmeticShiftRight(12, 2) == 3 && ArithmeticShiftRight(50, 64) == 0
    ensures ArithmeticShiftRight(-50, 64) == I64_MIN
    ensures ArithmeticShiftRight(-50, 2) == -13
  {
    Pow2Constants();
  }

  /** The unsigned fits unit test. */
  lemma FitsuTestVectors()
    ensures Fitsu(31, 5) && !Fitsu(32, 5)
  {
    FitsuIff(31, 5);
    FitsuIff(32, 5);
    Pow2Constants();
  }

  /** As written, two of the three assertions of the signed fits unit test fail: 4 signed
      bits hold -8 to 7, so 15 and -16 do not fit. */
  lemma FitssTestAsWritten()
    ensures !Fitss(15, 4) && !Fitss(16, 4) && !Fitss(-16, 4)
  {
    FitssIff(15, 4);
    FitssIff(16, 4);
    FitssIff(-16, 4);
    Pow2Constants();
  }

  /** What the test evidently means: 15 and -16, the bounds of 5 signed bits, fit in 5 bits
      and 16 does not; at 4 bits the bounds are 7 and -8. */
  lemma FitssTestIntended()
    ensures Fitss(15, 5) && !Fitss(16, 5) && Fitss(-16, 5)
    ensures Fitss(7, 4) && !Fitss(8, 4) && Fitss(-8, 4)
  {
    FitssIff(15, 5);
    FitssIff(16, 5);
    FitssIff(-16, 5);
    FitssIff(7, 4);
    FitssIff(8, 4);
    FitssIff(-8, 4);
    Pow2Constants();
  }

  /** The unsigned reads of the get unit test, on a packed rpeg word. */
  lemma GetuTestVectors()
    ensures Getu(0x9692_20F5, 4, 0) == 5 && Getu(0x9692_20F5, 4, 4) == 15
    ensures Getu(0x9692_20F5, 9, 23) == 301
  {
    var w: u64 := 0x9692_20F5;
    assert Pow2(4) == 16 && Pow2(9) == 0x200 && Pow2(23) == 0x80_0000 by {
      Pow2Constants();
    }
    assert Field(w, 4, 0) == 5 && Field(w, 4, 4) == 15 && Field(w, 9, 23) == 301;
    GetuValue(w, 4, 0);
    GetuValue(w, 4, 4);
    GetuValue(w, 9, 23);
  }

  /** The signed reads of the get unit test: fields 0b00000, 0b10001 and 0b00100. */
  lemma GetsTestVectors()
    ensures Gets(0x9692_20F5, 5, 8) == 0 && Gets(0x9692_20F5, 5, 13) == -15
    ensures Gets(0x9692_20F5, 5, 18) == 4
  {
    var w: u64 := 0x9692_20F5;
    assert Pow2(4) == 16 && Pow2(5) == 32 && Pow2(8) == 0x100 by {
      Pow2Constants();
    }
    assert Pow2(13) == 0x2000 && Pow2(18) == 0x4_0000 by {
      Pow2Constants();
    }
    assert Field(w, 5, 8) == 0 && Field(w, 5, 13) == 17 && Field(w, 5, 18) == 4;
    GetsValue(w, 5, 8);
    GetsValue(w, 5, 13);
    GetsValue(w, 5, 18);
  }

  /** A field with top bit 0 reads alike signed and unsigned; 0b11 reads 3 and -1. */
  lemma GetSignTestVectors()
    ensures Getu(7, 2, 2) == Gets(7, 2, 2) == 1
    ensures Getu(15, 2, 2) == 3 && Gets(15, 2, 2) == -1
  {
    GetuValue(7, 2, 2);
    GetsValue(7, 2, 2);
    GetuValue(15, 2, 2);
    GetsValue(15, 2, 2);
  }

  /** The first four assertions of the new unit test. */
  lemma NewuTestVectors()
    ensures Newu(0, 3, 2, 7) == Some(28)
    ensures Newu(255, 4, 3, 15) == Some(255)
    ensures Newu(255, 4, 3, 1) == Some(143)
    ensures Newu(0, 2, 0, 15) == None
  {
    NewuExample(0, 3, 2, 7, 28);
    NewuExample(255, 4, 3, 15, 255);
    NewuExample(255, 4, 3, 1, 143);
    FitsuIff(15, 2);
    assert Pow2(2) == 4;
  }

  /** One concrete `newu` call, checked against the closed form. */
  lemma NewuExample(word: u64, width: u64, lsb: u64, value: u64, expected: u64)
    requires 0 < width && width + lsb <= 8 && value < Pow2(width)
    requires expected == word / Pow2(width + lsb) * Pow2(width + lsb) + value * Pow2(lsb) + word % Pow2(lsb)
    ensures Newu(word, width, lsb, value) == Some(expected)
  {
    FitsuIff(value, width);
    NewuValue(word, width, lsb, value);
  }

  /** As written, the last two assertions of the new unit test fail: 7 and 5 do not fit
      in 3 signed bits, so `news` returns None where the test expects `newu`'s word and
      `Some(0b101)`. */
  lemma NewsTestAsWritten()
    ensures Newu(0, 3, 2, 7) == Some(28) && News(0, 3, 2, 7) == None
    ensures News(0, 3, 0, 5) == None
  {
    NewuTestVectors();
    NewsNoneIff(0, 3, 2, 7);
    NewsNoneIff(0, 3, 0, 5);
    FitssIff(7, 3);
    FitssIff(5, 3);
    Pow2Constants();
  }

  /** What the test evidently means: a positive value that fits in 3 signed bits is
      written alike by both, and -3, whose 3-bit pattern is 0b101, is written as 0b101. */
  lemma NewsTestIntended()
    ensures News(0, 3, 2, 3) == Newu(0, 3, 2, 3) == Some(12)
    ensures News(0, 3, 0, -3) == Some(5)
  {
    Pow2Constants();
    FitssIff(3, 3);
    FitssIff(-3, 3);
    FitsuIff(3, 3);
    FitsuIff(5, 3);
    NewsAgreesWithNewu(0, 3, 2, 3);
    NewuValue(0, 3, 2, 3);
    NewsIsNewu(0, 3, 0, -3);
    DivModUnique(-3, 8, -1, 5);
    NewuValue(0, 3, 0, 5);
  }
}
