/** Machine integers and the arithmetic facts about powers of two that the bit-level
    models rely on.  Rust's fixed-width integers are modelled as subset types of `int`;
    wrap-around, truncation and shifts are written out explicitly where they are used. */
module Words {

  type u8 = x: int | 0 <= x < 0x100
  type u16 = x: int | 0 <= x < 0x1_0000
  type u32 = x: int | 0 <= x < 0x1_0000_0000
  type u64 = x: int | 0 <= x < 0x1_0000_0000_0000_0000
  type i16 = x: int | -0x8000 <= x < 0x8000
  type i32 = x: int | -0x8000_0000 <= x < 0x8000_0000
  type i64 = x: int | -0x8000_0000_0000_0000 <= x < 0x8000_0000_0000_0000

  const U32_MAX: u32 := 0xFFFF_FFFF
  const I64_MIN: i64 := -0x8000_0000_0000_0000

  /** Rust `x << m` on a u32 (bits shifted out are lost); Rust rejects m >= 32. */
  function Shl32(x: u32, m: nat): u32
    requires m < 32
  {
    (x * Pow2(m)) % 0x1_0000_0000
  }

  /** Rust `x >> m` on a u32; Rust rejects m >= 32. */
  function Shr32(x: u32, m: nat): u32
    requires m < 32
  {
    DivLe(x, Pow2(m));
    x / Pow2(m)
  }

  /** 2 to the power n. */
  function Pow2(n: nat): (r: nat)
    ensures r >= 1
  {
    if n == 0 then 1 else 2 * Pow2(n - 1)
  }

  lemma {:induction false} Pow2Add(a: nat, b: nat)
    ensures Pow2(a + b) == Pow2(a) * Pow2(b)
  {
    if a > 0 {
      Pow2Add(a - 1, b);
      assert Pow2(a + b) == 2 * Pow2(a - 1 + b);
    }
  }

  lemma {:induction false} Pow2Monotone(a: nat, b: nat)
    requires a <= b
    ensures Pow2(a) <= Pow2(b)
    ensures Pow2(b) % Pow2(a) == 0
  {
    var d: nat := b - a;
    var pa, pd := Pow2(a), Pow2(d);
    Pow2Add(a, d);
    assert a + d == b;
    assert Pow2(b) == pa * pd;
    MulAtLeast(pd, pa);
    assert Pow2(b) == pd * pa + 0;
    DivModUnique(Pow2(b), pa, pd, 0);
  }

  lemma Pow2Constants()
    ensures Pow2(1) == 2 && Pow2(2) == 4 && Pow2(3) == 8 && Pow2(4) == 16
    ensures Pow2(5) == 32 && Pow2(8) == 0x100 && Pow2(9) == 0x200
    ensures Pow2(13) == 0x2000 && Pow2(16) == 0x1_0000 && Pow2(18) == 0x4_0000
    ensures Pow2(23) == 0x80_0000 && Pow2(24) == 0x100_0000 && Pow2(25) == 0x200_0000
    ensures Pow2(28) == 0x1000_0000 && Pow2(31) == 0x8000_0000 && Pow2(32) == 0x1_0000_0000
    ensures Pow2(63) == 0x8000_0000_0000_0000 && Pow2(64) == 0x1_0000_0000_0000_0000
  {
    assert Pow2(9) == 0x200;
    Pow2Add(9, 4);
    Pow2Add(9, 7);
    Pow2Add(9, 9);
    Pow2Add(16, 7);
    Pow2Add(16, 8);
    Pow2Add(16, 9);
    Pow2Add(16, 12);
    Pow2Add(16, 15);
    Pow2Add(16, 16);
    Pow2Add(32, 31);
    Pow2Add(32, 32);
  }

  /** The powers of two that bound 64-bit words. */
  lemma Pow2Word()
    ensures Pow2(63) == 0x8000_0000_0000_0000 && Pow2(64) == 0x1_0000_0000_0000_0000
  {
    Pow2Constants();
  }

  lemma MulAtLeast(a: int, d: int)
    requires a >= 1 && d > 0
    ensures a * d >= d
  {
  }

  lemma DivLe(x: int, d: int)
    requires x >= 0 && d >= 1
    ensures 0 <= x / d <= x
  {
    if x / d > x {
      MulLe(x + 1, x / d, d);
      MulAtLeast(d, x + 1);
    }
  }

  /** Rounding down to a multiple of d does not increase a number. */
  lemma DivMulLe(x: int, d: int)
    requires x >= 0 && d >= 1
    ensures 0 <= (x / d) * d <= x
  {
    var q, r := x / d, x % d;
    assert x == q * d + r;
    DivLe(x, d);
    MulLe(0, q, d);
  }

  /** `(a * b + c) * d` multiplied out. */
  lemma MulAddDistrib(a: int, b: int, c: int, d: int)
    ensures (a * b + c) * d == a * (b * d) + c * d
  {
    assert (a * b + c) * d == (a * b) * d + c * d;
  }

  /** A digit below b placed above a remainder below d stays below b units of d. */
  lemma DigitBound(x: int, b: int, r: int, d: int)
    requires 0 <= x < b && 0 <= r < d
    ensures 0 <= x * d + r < b * d
  {
    MulLe(x + 1, b, d);
    MulLe(0, x, d);
    assert (x + 1) * d == x * d + d;
  }

  lemma MulLt(x: int, y: int, a: int)
    requires x < y && a >= 1
    ensures x * a < y * a
  {
    MulLe(x + 1, y, a);
    assert (x + 1) * a == x * a + a;
  }

  lemma MulLe(x: int, y: int, a: int)
    requires x <= y && a >= 0
    ensures x * a <= y * a
  {
  }

  /** Euclidean division is characterised by its quotient and remainder. */
  lemma DivModUnique(x: int, d: int, q: int, r: int)
    requires d > 0 && 0 <= r < d && x == q * d + r
    ensures x / d == q && x % d == r
  {
    var q', r' := x / d, x % d;
    assert x == q' * d + r';
    assert (q - q') * d == r' - r;
    if q > q' {
      MulAtLeast(q - q', d);
    } else if q < q' {
      MulAtLeast(q' - q, d);
    }
  }

  lemma DivAddMultiple(x: int, k: int, d: int)
    requires d > 0
    ensures (x + k * d) / d == x / d + k
    ensures (x + k * d) % d == x % d
  {
    DivModUnique(x + k * d, d, x / d + k, x % d);
  }

  lemma MulDiv(x: int, d: int)
    requires d > 0
    ensures (x * d) / d == x && (x * d) % d == 0
  {
    DivModUnique(x * d, d, x, 0);
  }

  lemma SmallDiv(x: int, d: int)
    requires 0 <= x < d
    ensures x / d == 0 && x % d == x
  {
    DivModUnique(x, d, 0, x);
  }

  /** Splitting a division by a product `a * b` into a division by `a` then by `b`. */
  lemma DivModSplit(x: int, a: int, b: int)
    requires a > 0 && b > 0
    ensures x / a / b == x / (a * b)
    ensures x % (a * b) == (x / a) % b * a + x % a
    ensures (x % (a * b)) / a == (x / a) % b
    ensures (x % (a * b)) % a == x % a
  {
    var q1, r1 := x / a, x % a;
    var q2, r2 := q1 / b, q1 % b;
    assert x == q1 * a + r1;
    assert q1 == q2 * b + r2;
    assert q1 * a == (q2 * b) * a + r2 * a;
    assert (q2 * b) * a == q2 * (a * b);
    assert x == q2 * (a * b) + (r2 * a + r1);
    MulLe(r2, b - 1, a);
    assert (b - 1) * a == a * b - a;
    DivModUnique(x, a * b, q2, r2 * a + r1);
    DivModUnique(r2 * a + r1, a, r2, r1);
  }

  /** Multiplying by `b` and reducing modulo `a * b` keeps the residue modulo `a`, scaled. */
  lemma MulMod(x: int, a: int, b: int)
    requires a > 0 && b > 0
    ensures (x * b) % (a * b) == (x % a) * b
    ensures (x * b) / (a * b) == x / a
  {
    var q, r := x / a, x % a;
    assert x * b == q * (a * b) + r * b;
    MulLe(r, a - 1, b);
    DivModUnique(x * b, a * b, q, r * b);
  }

  /** A number below 2^(n+1) is the bit pattern of its upper n bits followed by its parity. */
  lemma Pow2Halve(x: int, n: nat)
    requires 0 <= x < Pow2(n + 1)
    ensures x / 2 < Pow2(n)
  {
  }
}
