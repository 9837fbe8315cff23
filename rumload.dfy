/** The conversion from the bytes of a `.um` program file to its 32-bit instruction words:
    every group of four bytes is one word, most significant byte first. */
module RumLoad {
  import opened Words
  import opened Bits

  datatype LoadError = NotWholeWords(byteCount: nat)

  datatype Result<T> = Ok(value: T) | Err(error: LoadError)

  /** `chunk[0] << 24 | chunk[1] << 16 | chunk[2] << 8 | chunk[3]` on bytes widened to u32;
      `<<` binds tighter than `|` and `|` groups to the left. */
  function ChunkOr(c0: u8, c1: u8, c2: u8, c3: u8): nat
  {
    Pow2Constants();
    Or(Or(Or(Shl32(c0, 24), Shl32(c1, 16)), Shl32(c2, 8)), c3)
  }

  /** The word the big-endian reading of four bytes denotes. */
  function BigEndian(c0: u8, c1: u8, c2: u8, c3: u8): nat
  {
    c0 * 0x100_0000 + c1 * 0x1_0000 + c2 * 0x100 + c3
  }

  /** The OR of the shifted bytes is their big-endian sum: the shifted bytes occupy
      disjoint bit ranges. */
  lemma ChunkOrValue(c0: u8, c1: u8, c2: u8, c3: u8)
    ensures ChunkOr(c0, c1, c2, c3) == BigEndian(c0, c1, c2, c3) < 0x1_0000_0000
  {
    assert Pow2(8) == 0x100 && Pow2(16) == 0x1_0000 && Pow2(24) == 0x100_0000 by { Pow2Constants(); }
    var o1 := Or(Shl32(c0, 24), Shl32(c1, 16));
    assert o1 == c0 * 0x100_0000 + c1 * 0x1_0000 by {
      ShiftedByte(c0, 24);
      ShiftedByte(c1, 16);
      OrDisjoint(c0 * 0x100_0000, c1 * 0x1_0000, 24);
    }
    var o2 := Or(o1, Shl32(c2, 8));
    assert o2 == o1 + c2 * 0x100 by {
      ShiftedByte(c0 * 0x100 + c1, 16);
      assert (c0 * 0x100 + c1) * 0x1_0000 == o1;
      ShiftedByte(c2, 8);
      OrDisjoint(o1, c2 * 0x100, 16);
    }
    assert Or(o2, c3) == o2 + c3 by {
      ShiftedByte(c0 * 0x1_0000 + c1 * 0x100 + c2, 8);
      assert (c0 * 0x1_0000 + c1 * 0x100 + c2) * 0x100 == o2;
      OrDisjoint(o2, c3, 8);
    }
  }

  /** A value below 2^(32-k) shifted left by k bits does not overflow, is a multiple of
      2^k, and a byte shifted by k is below 2^(k+8). */
  lemma ShiftedByte(x: nat, k: nat)
    requires k < 32 && x < Pow2(32 - k)
    ensures x * Pow2(k) < 0x1_0000_0000
    ensures Shl32(x, k) == x * Pow2(k)
    ensures (x * Pow2(k)) % Pow2(k) == 0
    ensures x < 0x100 ==> x * Pow2(k) < Pow2(k + 8)
  {
    var p := Pow2(k);
    assert x * p < 0x1_0000_0000 by {
      Pow2Add(32 - k, k);
      Pow2Constants();
      MulLe(x + 1, Pow2(32 - k), p);
      assert (x + 1) * p == x * p + p;
    }
    SmallDiv(x * p, 0x1_0000_0000);
    MulDiv(x, p);
    if x < 0x100 {
      assert Pow2(k + 8) == p * 0x100 by {
        Pow2Add(k, 8);
        Pow2Constants();
      }
      MulLe(x, 0xFF, p);
    }
  }

  /** One word from a chunk of four bytes. */
  function ChunkWord(c0: u8, c1: u8, c2: u8, c3: u8): u32
  {
    ChunkOrValue(c0, c1, c2, c3);
    ChunkOr(c0, c1, c2, c3)
  }

  lemma ChunkWordValue(c0: u8, c1: u8, c2: u8, c3: u8)
    ensures ChunkWord(c0, c1, c2, c3) == BigEndian(c0, c1, c2, c3)
  {
    ChunkOrValue(c0, c1, c2, c3);
  }

  /** The words of a byte sequence whose length is a multiple of 4, chunk by chunk. */
  function WordsOf(bytes: seq<u8>): seq<u32>
    requires |bytes| % 4 == 0
  {
    if |bytes| == 0 then []
    else [ChunkWord(bytes[0], bytes[1], bytes[2], bytes[3])] + WordsOf(bytes[4..])
  }

  /** The file contents as words, or an error when the byte count is not a multiple of 4
      (the source aborts the program with "Input file must be a series of 32-bit words."). */
  function Load(bytes: seq<u8>): Result<seq<u32>>
  {
    if |bytes| % 4 != 0 then Err(NotWholeWords(|bytes|)) else Ok(WordsOf(bytes))
  }

  /** Four big-endian bytes of a word. */
  function WordBytes(w: u32): seq<u8>
  {
    DivLe(w, 0x100_0000);
    [w / 0x100_0000, (w / 0x1_0000) % 0x100, (w / 0x100) % 0x100, w % 0x100]
  }

  /** The program file a sequence of words is stored as. */
  function Encode(words: seq<u32>): seq<u8>
  {
    if words == [] then [] else WordBytes(words[0]) + Encode(words[1..])
  }

  /** Loading fails exactly when the byte count is not a multiple of 4. */
  lemma LoadFailsIff(bytes: seq<u8>)
    ensures Load(bytes).Err? <==> |bytes| % 4 != 0
  {
  }

  /** There is one word per four bytes, and word i is the big-endian reading of bytes
      4i to 4i+3. */
  lemma {:induction false} LoadWordsValue(bytes: seq<u8>)
    requires |bytes| % 4 == 0
    ensures |WordsOf(bytes)| == |bytes| / 4
    ensures forall i :: 0 <= i < |bytes| / 4 ==>
      WordsOf(bytes)[i] == BigEndian(bytes[4 * i], bytes[4 * i + 1], bytes[4 * i + 2], bytes[4 * i + 3])
  {
    if |bytes| > 0 {
      var rest := bytes[4..];
      LoadWordsValue(rest);
      ChunkWordValue(bytes[0], bytes[1], bytes[2], bytes[3]);
      forall i | 1 <= i < |bytes| / 4
        ensures WordsOf(bytes)[i] == BigEndian(bytes[4 * i], bytes[4 * i + 1], bytes[4 * i + 2], bytes[4 * i + 3])
      {
        assert WordsOf(bytes)[i] == WordsOf(rest)[i - 1];
        assert rest[4 * (i - 1)] == bytes[4 * i];
      }
    }
  }

  /** A word's four bytes, read back big-endian, are the word. */
  lemma WordBytesRoundTrip(w: u32)
    ensures var b := WordBytes(w); BigEndian(b[0], b[1], b[2], b[3]) == w
  {
    DivModSplit(w, 0x100, 0x100);
    DivModSplit(w, 0x1_0000, 0x100);
  }

  /** A big-endian reading, split back into bytes, gives the bytes. */
  lemma BigEndianRoundTrip(c0: u8, c1: u8, c2: u8, c3: u8)
    ensures WordBytes(BigEndian(c0, c1, c2, c3)) == [c0, c1, c2, c3]
  {
    var w := BigEndian(c0, c1, c2, c3);
    DivModUnique(w, 0x100_0000, c0, c1 * 0x1_0000 + c2 * 0x100 + c3);
    DivModUnique(w, 0x1_0000, c0 * 0x100 + c1, c2 * 0x100 + c3);
    DivModUnique(c0 * 0x100 + c1, 0x100, c0, c1);
    DivModUnique(w, 0x100, c0 * 0x1_0000 + c1 * 0x100 + c2, c3);
    DivModUnique(c0 * 0x1_0000 + c1 * 0x100 + c2, 0x100, c0 * 0x100 + c1, c2);
  }

  lemma WordsOfCons(b: seq<u8>, rest: seq<u8>)
    requires |b| == 4 && |rest| % 4 == 0
    ensures WordsOf(b + rest) == [ChunkWord(b[0], b[1], b[2], b[3])] + WordsOf(rest)
  {
    assert (b + rest)[4..] == rest;
  }

  /** A word survives being written as bytes and loaded again. */
  lemma ChunkWordBytes(w: u32)
    ensures var b := WordBytes(w); ChunkWord(b[0], b[1], b[2], b[3]) == w
  {
    var b := WordBytes(w);
    WordBytesRoundTrip(w);
    ChunkWordValue(b[0], b[1], b[2], b[3]);
  }

  /** Loading the encoding of any program gives back the program. */
  lemma {:induction false} LoadEncode(words: seq<u32>)
    ensures |Encode(words)| == 4 * |words|
    ensures Load(Encode(words)) == Ok(words)
  {
    if words != [] {
      var w, rest := words[0], words[1..];
      var b := WordBytes(w);
      LoadEncode(rest);
      assert Encode(words) == b + Encode(rest);
      assert |Encode(words)| == 4 * |words|;
      DivModUnique(4 * |words|, 4, |words|, 0);
      DivModUnique(4 * |rest|, 4, |rest|, 0);
      WordsOfCons(b, Encode(rest));
      ChunkWordBytes(w);
      assert WordsOf(Encode(words)) == [w] + rest;
      assert [w] + rest == words;
    }
  }

  /** Encoding the words of any whole-word file gives back the file. */
  lemma {:induction false} EncodeLoad(bytes: seq<u8>)
    requires |bytes| % 4 == 0
    ensures Encode(WordsOf(bytes)) == bytes
  {
    if |bytes| > 0 {
      EncodeLoad(bytes[4..]);
      ChunkWordValue(bytes[0], bytes[1], bytes[2], bytes[3]);
      BigEndianRoundTrip(bytes[0], bytes[1], bytes[2], bytes[3]);
      var ws := WordsOf(bytes);
      assert ws[1..] == WordsOf(bytes[4..]);
      assert bytes == bytes[..4] + bytes[4..];
    }
  }

  /** The loader's unit test: bytes 0b00110011, 0b10000001, 0b11110000, 0b00100101. */
  lemma LoadTestVector()
    ensures Load([0x33, 0x81, 0xF0, 0x25]) == Ok([0x3381_F025])
    ensures Load([0x33, 0x81, 0xF0, 0x25]) != Ok([0x3391_F025])
  {
    var b: seq<u8> := [0x33, 0x81, 0xF0, 0x25];
    LoadWordsValue(b);
    assert WordsOf(b)[0] == 0x3381_F025;
    assert |WordsOf(b)| == 1;
    assert WordsOf(b) == [0x3381_F025];
  }
}
