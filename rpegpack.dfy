/** The rpeg compressor's 32-bit code word: six quantized values of a 2x2 block packed
    from the least significant bit upwards with the bit-packing library, at the widths of
    `BitWidths`.  The word is a u64 whose upper 32 bits are unused. */
module RpegPack {
  import opened Words
  import Bitpack

  /** The quantized cosine coefficients and chroma indices of a block. */
  datatype QuantizedBlock = QuantizedBlock(a: u64, b: i64, c: i64, d: i64, pbIndex: u64, prIndex: u64)

  /** `BitWidths`: the number of bits given to each value. */
  const A_BITS: u64 := 9
  const B_BITS: u64 := 5
  const C_BITS: u64 := 5
  const D_BITS: u64 := 5
  const PB_INDEX_BITS: u64 := 4
  const PR_INDEX_BITS: u64 := 4

  /** Only the low 32 bits of a packed word are used. */
  const USED_BITS: u64 := 32

  /** What the `unwrap`s in `pack` demand: each value fits its field. */
  predicate Packable(q: QuantizedBlock)
  {
    Bitpack.Fitsu(q.prIndex, PR_INDEX_BITS) && Bitpack.Fitsu(q.pbIndex, PB_INDEX_BITS) &&
    Bitpack.Fitss(q.d, D_BITS) && Bitpack.Fitss(q.c, C_BITS) && Bitpack.Fitss(q.b, B_BITS) &&
    Bitpack.Fitsu(q.a, A_BITS)
  }

  /** The layout: pr_index in bits 0-3, pb_index in 4-7, d in 8-12, c in 13-17, b in 18-22
      and a in 23-31; the signed values are stored as 5-bit two's complement. */
  function PackedWord(q: QuantizedBlock): int
  {
    q.prIndex + q.pbIndex * 0x10 + (q.d % 32) * 0x100 + (q.c % 32) * 0x2000
      + (q.b % 32) * 0x4_0000 + q.a * 0x80_0000
  }

  /** The block a word denotes: each field read from the low 32 bits, the signed ones
      sign-extended. */
  function Unpacked(word: u64): QuantizedBlock
  {
    QuantizedBlock(
      Bitpack.Field(word, 9, 23),
      Bitpack.SignExtend(Bitpack.Field(word, 5, 18), 5),
      Bitpack.SignExtend(Bitpack.Field(word, 5, 13), 5),
      Bitpack.SignExtend(Bitpack.Field(word, 5, 8), 5),
      Bitpack.Field(word, 4, 4),
      Bitpack.Field(word, 4, 0))
  }

  /** The values fit their fields exactly when a < 2^9, b, c and d lie in [-16, 15] and
      both indices are below 16. */
  lemma PackableIff(q: QuantizedBlock)
    ensures Packable(q) <==>
      q.a < 512 && -16 <= q.b <= 15 && -16 <= q.c <= 15 && -16 <= q.d <= 15 &&
      q.pbIndex < 16 && q.prIndex < 16
  {
    Pow2Constants();
    Bitpack.FitsuIff(q.prIndex, 4);
    Bitpack.FitsuIff(q.pbIndex, 4);
    Bitpack.FitsuIff(q.a, 9);
    Bitpack.FitssIff(q.b, 5);
    Bitpack.FitssIff(q.c, 5);
    Bitpack.FitssIff(q.d, 5);
  }

  /** `newu` on a word whose bits from `lsb` up are clear adds the shifted value. */
  lemma AppendUnsigned(word: u64, width: u64, lsb: u64, value: u64)
    requires 0 < width && width + lsb <= Bitpack.WORD_SIZE
    requires word < Pow2(lsb) && value < Pow2(width)
    ensures Bitpack.Newu(word, width, lsb, value).Some?
    ensures Bitpack.Newu(word, width, lsb, value).value == word + value * Pow2(lsb)
    ensures word + value * Pow2(lsb) < Pow2(width + lsb)
  {
    var top, pw, pl := Pow2(width + lsb), Pow2(width), Pow2(lsb);
    assert word + value * pl < top by {
      Pow2Add(width, lsb);
      DigitBound(value, pw, word, pl);
    }
    assert word / top == 0 && word % pl == word by {
      Pow2Monotone(lsb, width + lsb);
      SmallDiv(word, top);
      SmallDiv(word, pl);
    }
    Bitpack.FitsuIff(value, width);
    Bitpack.NewuValue(word, width, lsb, value);
  }

  /** `news` on a word whose bits from `lsb` up are clear adds the shifted two's
      complement of the value. */
  lemma AppendSigned(word: u64, width: u64, lsb: u64, value: i64)
    requires 0 < width && width + lsb <= Bitpack.WORD_SIZE
    requires word < Pow2(lsb) && Bitpack.Fitss(value, width)
    ensures Bitpack.News(word, width, lsb, value).Some?
    ensures Bitpack.News(word, width, lsb, value).value == word + (value % Pow2(width)) * Pow2(lsb)
    ensures word + (value % Pow2(width)) * Pow2(lsb) < Pow2(width + lsb)
  {
    Bitpack.NewsIsNewu(word, width, lsb, value);
    AppendUnsigned(word, width, lsb, value % Pow2(width));
  }

  /** One `newu(...).unwrap()` step of `pack`, on a word whose bits from `lsb` up are
      clear: the value lands just above the bits already packed. */
  method PutUnsigned(word: u64, width: u64, lsb: u64, value: u64) returns (r: u64)
    requires 0 < width && width + lsb <= Bitpack.WORD_SIZE
    requires word < Pow2(lsb) && value < Pow2(width)
    ensures r == word + value * Pow2(lsb) < Pow2(width + lsb)
  {
    AppendUnsigned(word, width, lsb, value);
    r := Bitpack.Newu(word, width, lsb, value).value;
  }

  /** One `news(...).unwrap()` step of `pack`: the value's two's complement lands just
      above the bits already packed. */
  method PutSigned(word: u64, width: u64, lsb: u64, value: i64) returns (r: u64)
    requires 0 < width && width + lsb <= Bitpack.WORD_SIZE
    requires word < Pow2(lsb) && Bitpack.Fitss(value, width)
    ensures r == word + (value % Pow2(width)) * Pow2(lsb) < Pow2(width + lsb)
  {
    AppendSigned(word, width, lsb, value);
    r := Bitpack.News(word, width, lsb, value).value;
  }

  /** `pack`: six successive `newu`/`news` calls, each at the position after the
      previous field. */
  method Pack(q: QuantizedBlock) returns (word: u64)
    requires Packable(q)
    ensures word == PackedWord(q)
  {
    PackableIff(q);
    Pow2Constants();
    word := 0;
    var position: u64 := 0;
    word := PutUnsigned(word, PR_INDEX_BITS, position, q.prIndex);
    position := position + PR_INDEX_BITS;
    word := PutUnsigned(word, PB_INDEX_BITS, position, q.pbIndex);
    position := position + PB_INDEX_BITS;
    word := PutSigned(word, D_BITS, position, q.d);
    position := position + D_BITS;
    word := PutSigned(word, C_BITS, position, q.c);
    position := position + C_BITS;
    word := PutSigned(word, B_BITS, position, q.b);
    position := position + B_BITS;
    word := PutUnsigned(word, A_BITS, position, q.a);
  }

  /** `unpack`: reads the fields from the top of the 32 used bits down. */
  method Unpack(word: u64) returns (q: QuantizedBlock)
    ensures q == Unpacked(word)
  {
    var position: u64 := USED_BITS;
    position := position - A_BITS;
    var a := Bitpack.Getu(word, A_BITS, position);
    position := position - B_BITS;
    var b := Bitpack.Gets(word, B_BITS, position);
    position := position - C_BITS;
    var c := Bitpack.Gets(word, C_BITS, position);
    position := position - D_BITS;
    var d := Bitpack.Gets(word, D_BITS, position);
    position := position - PB_INDEX_BITS;
    var pbIndex := Bitpack.Getu(word, PB_INDEX_BITS, position);
    position := position - PR_INDEX_BITS;
    var prIndex := Bitpack.Getu(word, PR_INDEX_BITS, position);
    Bitpack.GetuValue(word, 9, 23);
    Bitpack.GetsValue(word, 5, 18);
    Bitpack.GetsValue(word, 5, 13);
    Bitpack.GetsValue(word, 5, 8);
    Bitpack.GetuValue(word, 4, 4);
    Bitpack.GetuValue(word, 4, 0);
    q := QuantizedBlock(a, b, c, d, pbIndex, prIndex);
  }

  /** A field below `hi` units and above `lo` reads back as itself. */
  lemma FieldOfDigits(word: nat, hi: nat, x: nat, lo: nat, width: nat, lsb: nat)
    requires x < Pow2(width) && lo < Pow2(lsb)
    requires word == hi * Pow2(width + lsb) + x * Pow2(lsb) + lo
    ensures Bitpack.Field(word, width, lsb) == x
  {
    var pw, pl := Pow2(width), Pow2(lsb);
    Pow2Add(width, lsb);
    MulAddDistrib(hi, pw, x, pl);
    DivModUnique(word, pl, hi * pw + x, lo);
    DivModUnique(hi * pw + x, pw, hi, x);
  }

  /** Every packable block is packed into the low 32 bits and unpacks to itself. */
  lemma UnpackPack(q: QuantizedBlock)
    requires Packable(q)
    ensures 0 <= PackedWord(q) < 0x1_0000_0000
    ensures Unpacked(PackedWord(q)) == q
  {
    PackableIff(q);
    Pow2Constants();
    PackedFields(q.a, q.b % 32, q.c % 32, q.d % 32, q.pbIndex, q.prIndex);
    assert Pow2(5) == 32 && Pow2(4) == 16;
    Bitpack.SignExtendResidue(q.b, 5);
    Bitpack.SignExtendResidue(q.c, 5);
    Bitpack.SignExtendResidue(q.d, 5);
  }

  /** The six fields of the layout read back from the word that holds them. */
  lemma PackedFields(a: nat, b5: nat, c5: nat, d5: nat, pb: nat, pr: nat)
    requires a < 512 && b5 < 32 && c5 < 32 && d5 < 32 && pb < 16 && pr < 16
    ensures var w := pr + pb * 0x10 + d5 * 0x100 + c5 * 0x2000 + b5 * 0x4_0000 + a * 0x80_0000;
      0 <= w < 0x1_0000_0000 &&
      Bitpack.Field(w, 9, 23) == a && Bitpack.Field(w, 5, 18) == b5 &&
      Bitpack.Field(w, 5, 13) == c5 && Bitpack.Field(w, 5, 8) == d5 &&
      Bitpack.Field(w, 4, 4) == pb && Bitpack.Field(w, 4, 0) == pr
  {
    Pow2Constants();
    var w := pr + pb * 0x10 + d5 * 0x100 + c5 * 0x2000 + b5 * 0x4_0000 + a * 0x80_0000;
    assert Pow2(4 + 0) == 16 && Pow2(4 + 4) == 256 && Pow2(5 + 8) == 0x2000;
    assert Pow2(5 + 13) == 0x4_0000 && Pow2(5 + 18) == 0x80_0000 && Pow2(9 + 23) == 0x1_0000_0000;
    var hi0 := pb + d5 * 16 + c5 * 512 + b5 * 0x4000 + a * 0x8_0000;
    FieldOfDigits(w, hi0, pr, 0, 4, 0);
    var hi1 := d5 + c5 * 32 + b5 * 1024 + a * 0x8000;
    FieldOfDigits(w, hi1, pb, pr, 4, 4);
    var hi2 := c5 + b5 * 32 + a * 1024;
    FieldOfDigits(w, hi2, d5, pb * 16 + pr, 5, 8);
    var hi3 := b5 + a * 32;
    var lo3 := d5 * 256 + pb * 16 + pr;
    FieldOfDigits(w, hi3, c5, lo3, 5, 13);
    var lo4 := c5 * 0x2000 + lo3;
    FieldOfDigits(w, a, b5, lo4, 5, 18);
    var lo5 := b5 * 0x4_0000 + lo4;
    FieldOfDigits(w, 0, a, lo5, 9, 23);
  }

  /** A field within the low n bits reads the same from the word reduced modulo 2^n. */
  lemma FieldOfLowBits(word: nat, w: nat, l: nat, n: nat)
    requires w + l <= n
    ensures Bitpack.Field(word % Pow2(n), w, l) == Bitpack.Field(word, w, l)
  {
    var e: nat := n - (l + w);
    Pow2Add(l + w, e);
    assert l + w + e == n;
    DivModSplit(word, Pow2(l + w), Pow2(e));
    Bitpack.FieldSplit(word % Pow2(n), w, l);
    Bitpack.FieldSplit(word, w, l);
  }

  /** `unpack` reads only the low 32 bits: the upper half of the word is ignored. */
  lemma UnpackIgnoresHighBits(word: u64)
    ensures Unpacked(word) == Unpacked(word % 0x1_0000_0000)
  {
    Pow2Constants();
    FieldOfLowBits(word, 9, 23, 32);
    FieldOfLowBits(word, 5, 18, 32);
    FieldOfLowBits(word, 5, 13, 32);
    FieldOfLowBits(word, 5, 8, 32);
    FieldOfLowBits(word, 4, 4, 32);
    FieldOfLowBits(word, 4, 0, 32);
  }

  /** The pack and unpack unit tests: {a 281, b -10, c 15, d -15, pb 1, pr 9} and the word
      0b100011001_10110_01111_10001_0001_1001. */
  lemma PackTestVector()
    ensures var q := QuantizedBlock(281, -10, 15, -15, 1, 9);
      Packable(q) && PackedWord(q) == 0x8CD9_F119 && Unpacked(0x8CD9_F119) == q
  {
    var q := QuantizedBlock(281, -10, 15, -15, 1, 9);
    PackableIff(q);
    assert PackedWord(q) == 0x8CD9_F119;
    UnpackPack(q);
  }
}
