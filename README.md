# csc411 course projects in Dafny

This project models the integer core of a set of Rust course projects and proves properties of that model. The projects are:

- **The Universal Machine (UM) emulator.** It has three parts:
  - the instruction decoder;
  - segmented memory, in two versions: a map from ids to segments, and a vector of segments with a LIFO free list;
  - the fetch/decode/execute loop, with its eight registers, 14 opcodes and self-replacing Load Program.
- **Tools around the UM:** a second, text-producing disassembler and the big-endian program loader.
- **The bit-packing library** and the rpeg 32-bit word layout built on it.
- **The `Array2` grid library**, with its row-major and column-major iterators.
- **Two pieces of the rpeg codec:** the trimming of odd dimensions, and the 2 x 2 block reshaping.
- **The ppmtrans image transforms:** rotate, flip and transpose.
- **The sudoku checker.**
- **The fingerprint grouping of fgroups.**
- **The two functions of the testing lab.**

Fixed-width integers are subset types of `int` (`u8` … `u64`, `i16` … `i64`, in module `Words`). Rust's wrap-around, truncation and shifts are written out explicitly. `&`, `|` and `!` are recursive functions on naturals, in module `Bits`.

The models take the source's form:

- **Imperative code.** Code that changes state becomes a class with `modifies` clauses, or a method with loops and their invariants:
  - the two UM memories;
  - the `Array2` iterators;
  - the execute loop, the two codec loops and ppmtrans `transform`;
  - the sudoku checks, `assemble_map` and `print_groups`.
- **Pure code.** Pure code becomes functions and lemmas: the decoders, the bit-packing library, the loader conversion, the lab functions and the `Array2` constructors.
- **Specification functions.** Each method is proved against a specification function, and the lemmas about that function carry the source's promises.

A Rust panic appears in one of two ways:

- **Library misuse.** A panic on a caller's misuse of a library function is a `requires`. Examples: the `assert!` in `getu`, the `unwrap`s in `pack` and `blockify`, and the angle assertion in `rotate`.
- **Program errors.** A panic an ordinary input can cause is a `Result`/`Option` error value. Examples: a UM fault, a loader error, `get` out of bounds, and `newu` on a value that does not fit.

## Model

| member | source | states |
|---|---|---|
| RumDis.GetBitsValue | assignments/profile/src/rumdis.rs:33-45 | `get_bits(w, lsb, width)` is floor(w / 2^lsb) mod 2^width for every field inside the word, and 0 for width 0 |
| RumDis.DisassembleFields | assignments/profile/src/rumdis.rs:22-31 | each decoded field is the word's bits at its place: opcode at 28 (4 bits), A at 6, B at 3, C at 0, load register at 25 (3 bits each), immediate at 0 (25 bits) |
| RumDis.DisassembleBounds | assignments/profile/src/rumdis.rs:24-29 | opcode < 16, every register number < 8, the immediate < 2^25 |
| RumDis.LoadFieldsRoundTrip | assignments/profile/src/rumdis.rs:24-29 | opcode·2^28 + reg_load·2^25 + load_value rebuilds every word |
| RumDis.RegisterFieldsRoundTrip | assignments/profile/src/rumdis.rs:25-27 | reg_a·64 + reg_b·8 + reg_c is the low nine bits of the word |
| RumDis.DecodeEncodeRegisters | assignments/profile/src/rumdis.rs:22-31 | decoding a three-register instruction word gives back its opcode and registers |
| RumDis.DecodeEncodeLoadValue | assignments/profile/src/rumdis.rs:22-31 | decoding a load-value word gives back its opcode, register and immediate |
| RumDis.DisassembleTestVectors | assignments/profile/src/rumdis.rs:51-72 | the two unit-test words decode to the asserted fields |
| RumDump.MaskValue | labs/rumdump-lab/rumdump/src/rumdis.rs:36-38 | `mask(bits)` is 2^bits − 1 for bits < 32 |
| RumDump.GetValue | labs/rumdump-lab/rumdump/src/rumdis.rs:42-44 | `get(field, w)` is floor(w / 2^lsb) mod 2^width |
| RumDump.GetAgreesWithGetBits | labs/rumdump-lab/rumdump/src/rumdis.rs:42-44 | this decoder's `get` agrees with the emulator's `get_bits` on every field that fits in a word |
| RumDump.FieldsMatchLayout | labs/rumdump-lab/rumdump/src/rumdis.rs:10-15 | the six field constants read exactly the emulator decoder's fields |
| RumDump.OpIsTopBits | labs/rumdump-lab/rumdump/src/rumdis.rs:47-49 | `op` converts the top four bits with the enum's numbering 0 to 13 |
| RumDump.OpDefinedIff | labs/rumdump-lab/rumdump/src/rumdis.rs:19-34 | `op` is Some exactly for top bits 0 to 13, and None exactly for 14 and 15 |
| RumDump.DecimalRoundTrip | labs/rumdump-lab/rumdump/src/rumdis.rs:140-146 | the decimal text `{}` prints is non-empty, all digits, and reads back as the number |
| RumDump.DisassembleHaltIff | labs/rumdump-lab/rumdump/src/rumdis.rs:51-149 | the text is "Halt." exactly when the opcode is 7 |
| RumDump.DisassembleInvalid | labs/rumdump-lab/rumdump/src/rumdis.rs:147 | opcodes 14 and 15 print "Invalid instruction " followed by the whole word in decimal |
| RumDump.DisassembleLoadValue | labs/rumdump-lab/rumdump/src/rumdis.rs:140-146 | a load-value word prints as "r<register> := <value>" |
| RumLoad.ChunkOrValue | assignments/profile/src/rumload.rs:27-34 | OR-ing the four shifted bytes is their big-endian sum, which is below 2^32 |
| RumLoad.ChunkWordValue | assignments/profile/src/rumload.rs:27-34 | the word built from one chunk is b0·2^24 + b1·2^16 + b2·2^8 + b3 |
| RumLoad.LoadFailsIff | assignments/profile/src/rumload.rs:20-24 | loading fails exactly when the byte count is not a multiple of 4 |
| RumLoad.LoadWordsValue | assignments/profile/src/rumload.rs:27-34 | there are bytes/4 words, and word i is the big-endian reading of bytes 4i to 4i+3 |
| RumLoad.WordBytesRoundTrip | assignments/profile/src/rumload.rs:27-34 | a word's four big-endian bytes read back as the word |
| RumLoad.BigEndianRoundTrip | assignments/profile/src/rumload.rs:27-34 | splitting a big-endian reading into bytes gives back the bytes |
| RumLoad.LoadEncode | assignments/profile/src/rumload.rs:20-34 | loading the byte encoding of any program gives back the program |
| RumLoad.EncodeLoad | assignments/profile/src/rumload.rs:27-34 | encoding the words of any whole-word file gives back the file |
| RumLoad.LoadTestVector | assignments/profile/src/rumload.rs:47-62 | the unit test's four bytes load as 0b00110011100000011111000000100101 |
| RumMem.ReadAfterWrite | assignments/rum/src/rummem.rs:67-69 | a store followed by a load of the same word returns the stored value |
| RumMem.WriteFailsLikeRead | assignments/rum/src/rummem.rs:82-84 | a store fails exactly where a load of that word fails, with the same error |
| RumMem.WriteFrame | assignments/rum/src/rummem.rs:82-84 | a store keeps every id and segment length and changes no other word |
| RumMem.FreeIdBelow | assignments/rum/src/rummem.rs:87-96 | with fewer than n ids in use an id below n is free, so the redraw loop has something to find |
| RumMem.Memory.constructor | assignments/rum/src/rummem.rs:4 | a new memory, an empty ordered map, maps no segment |
| RumMem.Memory.LoadProgram | assignments/rum/src/rummem.rs:11-13 | id 0 maps to exactly the given words and every other segment is kept |
| RumMem.Memory.GetProgramLength | assignments/rum/src/rummem.rs:22-24 | the length of segment 0; an error exactly when 0 is unmapped |
| RumMem.Memory.ChooseOpenIndex | assignments/rum/src/rummem.rs:87-96 | an id not in use, and 0 whenever 0 is free |
| RumMem.Memory.Map | assignments/rum/src/rummem.rs:34-43 | the new id was unused and now holds `length` zeros, and nothing else changes; it fails, changing nothing, exactly when u32::MAX or more ids are in use |
| RumMem.Memory.Unmap | assignments/rum/src/rummem.rs:50-52 | removes exactly that id, and does nothing when it is absent |
| RumMem.Memory.Load | assignments/rum/src/rummem.rs:67-69 | the word, succeeding exactly when the id is mapped and the offset is inside the segment |
| RumMem.Memory.Store | assignments/rum/src/rummem.rs:82-84 | writes one word when the load would succeed, otherwise fails with the load's error and changes nothing |
| RumMem.MapUnmapScenario | assignments/rum/src/rummem.rs:111-146 | the unit tests: a new segment of 10 zeros is mapped, then unmapped, and a stored 59 loads back |
| ProfileMem.Memory.constructor | assignments/profile/src/rummem.rs:14-19 | one empty segment at id 0 and an empty free list |
| ProfileMem.Memory.Len | assignments/profile/src/rummem.rs:21-23 | the number of segments |
| ProfileMem.Memory.Push | assignments/profile/src/rummem.rs:25-27 | appends one segment and leaves the free list alone |
| ProfileMem.Memory.Get | assignments/profile/src/rummem.rs:29-31 | the segment at the index, None exactly past the end |
| ProfileMem.Memory.LoadProgram | assignments/profile/src/rummem.rs:53-55 | segment 0 becomes the program and nothing else changes |
| ProfileMem.Memory.GetProgramLength | assignments/profile/src/rummem.rs:64-66 | the length of segment 0 |
| ProfileMem.Memory.Map | assignments/profile/src/rummem.rs:76-87 | with an empty free list, appends a zero segment and returns the old length (as u32); otherwise pops the most recently freed id and installs zeros there, failing when that id is past the end |
| ProfileMem.Memory.Unmap | assignments/profile/src/rummem.rs:94-96 | as written, pushes the id onto the free list and changes no segment |
| ProfileMem.Memory.UnmapIfMapped | assignments/profile/src/rummem.rs:89-96 | corrected unmap: frees only an id in use other than 0, keeps the free list valid, and leaves the id unmapped |
| ProfileMem.Memory.Load | assignments/profile/src/rummem.rs:111-113 | the word, succeeding exactly for an id and offset in range |
| ProfileMem.Memory.Store | assignments/profile/src/rummem.rs:126-128 | writes exactly one word when in range, otherwise changes nothing; the free list is untouched |
| ProfileMem.MapFromValidFreeList | assignments/profile/src/rummem.rs:76-87 | with a valid free list, `map` never fails, returns an id not in use, fills it with zeros and keeps the free list valid |
| ProfileMem.UnmapReuseScenario | assignments/profile/src/rummem.rs:141-152 | the unmap unit test: the first map gives 1, unmapping frees 1, and the next map reuses 1 with 50 zeros |
| ProfileMem.LifoScenario | assignments/profile/src/rummem.rs:76-81 | after freeing 1 and then 2, map returns 2 and then 1 |
| ProfileMem.UnmapUnmappedScenario | assignments/profile/src/rummem.rs:94-96 | as written, unmapping the never-mapped id 5 makes the next map fail |
| ProfileMem.DoubleUnmapScenario | assignments/profile/src/rummem.rs:94-96 | as written, unmapping one id twice makes the next two maps return the same id |
| ProfileMem.DoubleUnmapCorrectedScenario | assignments/profile/src/rummem.rs:94-96 | with the corrected unmap the same calls return two different ids |
| RumRun.NandValue | assignments/rum/src/rumrun.rs:86-89 | `!(x & y)` on u32 is 2^32 − 1 − (x & y) |
| RumRun.RunStopsAtLength | assignments/rum/src/rumrun.rs:33-34 | the loop stops without executing once pc equals the cached program length |
| RumRun.ExecStarts | assignments/rum/src/rumrun.rs:30-34 | execution starts at pc 0 with eight zero registers and segment 0's length, and an empty program finishes at once |
| RumRun.ConditionalMoveStep | assignments/rum/src/rumrun.rs:62-66 | r[A] := r[B] when r[C] ≠ 0, otherwise no register changes; pc advances by 1 |
| RumRun.RegisterStep | assignments/rum/src/rumrun.rs:62-115 | a register instruction continues with the registers it computes or fails with its fault |
| RumRun.ArithmeticStep | assignments/rum/src/rumrun.rs:75-89 | Add and Multiply store the result mod 2^32 in r[A], NAND stores the complement of r[B] & r[C], and nothing else but pc changes |
| RumRun.DivideStep | assignments/rum/src/rumrun.rs:83-85 | a zero divisor is exactly the fault case; otherwise r[A] := floor(r[B] / r[C]) |
| RumRun.HaltStep | assignments/rum/src/rumrun.rs:90-92 | the run stops exactly on opcode 7 |
| RumRun.InvalidOpcodeStep | assignments/rum/src/rumrun.rs:116 | opcodes 14 and 15 are faults |
| RumRun.LoadValueStep | assignments/rum/src/rumrun.rs:113-115 | the 25-bit immediate goes into the load register |
| RumRun.SegmentStep | assignments/rum/src/rumrun.rs:67-74 | load r[A] := m[r[B]][r[C]], store m[r[A]][r[B]] := r[C], each failing exactly when the word does not exist |
| RumRun.MapStep | assignments/rum/src/rumrun.rs:93-95 | a fresh segment of r[C] zeros at the chosen id, whose number goes into r[B]; fails exactly when u32::MAX ids are in use |
| RumRun.UnmapStep | assignments/rum/src/rumrun.rs:96-98 | removes the segment r[C] names |
| RumRun.IoStep | assignments/rum/src/rumrun.rs:99-104 | Output appends r[C] mod 256; Input reads the next byte into r[C] and fails at the end of the input |
| RumRun.LoadProgramStep | assignments/rum/src/rumrun.rs:105-112 | segment 0 becomes a copy of segment r[B], pc := r[C] with no increment, and the cached length is refreshed; an unmapped r[B] is a fault |
| RumRun.StepFrame | assignments/rum/src/rumrun.rs:119 | every instruction but Load Program advances pc by exactly 1; only Store, Map, Unmap and Load Program change memory, and only Output and Input touch the streams |
| RumRun.OutputProgramScenario | assignments/rum/src/rumrun.rs:29-121 | a load-value, output, halt program halts after writing the byte 72 |
| RumRun.DivideByZeroScenario | assignments/rum/src/rumrun.rs:83-85 | dividing by a zero register faults before changing any state |
| RumRun.ExecRegisterOp | assignments/rum/src/rumrun.rs:62-89 | the in-place register update is the one `RegisterOp` computes, and a fault leaves the registers unchanged |
| RumRun.ExecMemoryOp | assignments/rum/src/rumrun.rs:67-112 | the memory instructions on the memory object agree with `MemoryOp` for a freshly chosen id |
| RumRun.ExecIoOp | assignments/rum/src/rumrun.rs:99-104 | Output and Input on the register array agree with `IoOp` |
| RumRun.Cycle | assignments/rum/src/rumrun.rs:36-119 | one fetch/decode/execute iteration agrees with `Step` |
| RumRun.Execute | assignments/rum/src/rumrun.rs:29-121 | the loop's outcome is the run `Exec` specifies for the ids `map` chose, and the final memory is the object's |
| Bitpack.FitsuIff | assignments/arith/bitpack/src/bitpack.rs:22-26 | `fitsu(n, w)` holds exactly when w > 0 and n ≤ 2^w − 1 |
| Bitpack.FitssIff | assignments/arith/bitpack/src/bitpack.rs:8-15 | `fitss(n, 0)` is false; for w > 0 it holds exactly when −2^(w−1) ≤ n ≤ 2^(w−1) − 1 |
| Bitpack.KeepLow | assignments/arith/bitpack/src/bitpack.rs:123-138 | shifting left then right by 64 − k keeps the low k bits |
| Bitpack.KeepHigh | assignments/arith/bitpack/src/bitpack.rs:123-138 | shifting right then left by k clears the low k bits |
| Bitpack.GetuValue | assignments/arith/bitpack/src/bitpack.rs:55-66 | `getu` is floor(word / 2^lsb) mod 2^width, and 0 for width 0 |
| Bitpack.GetsValue | assignments/arith/bitpack/src/bitpack.rs:35-46 | `gets` is the field sign-extended from its top bit, and 0 for width 0 |
| Bitpack.GetsAgreesWithGetu | assignments/arith/bitpack/src/bitpack.rs:35-66 | signed and unsigned reads agree exactly when the field's top bit is 0; otherwise they differ by 2^width |
| Bitpack.NewuNoneIff | assignments/arith/bitpack/src/bitpack.rs:79-95 | `newu` fails exactly when the value does not fit |
| Bitpack.NewuValue | assignments/arith/bitpack/src/bitpack.rs:79-95 | the word `newu` builds is the bits above the field, the value at lsb, and the bits below |
| Bitpack.NewuGetu | assignments/arith/bitpack/src/bitpack.rs:79-95 | `getu` reads back the value `newu` wrote |
| Bitpack.NewuKeepsOtherBits | assignments/arith/bitpack/src/bitpack.rs:82-94 | every bit outside [lsb, lsb + width) is unchanged |
| Bitpack.NewuFrame | assignments/arith/bitpack/src/bitpack.rs:79-95 | any field wholly above or below the written one reads as before, signed or unsigned |
| Bitpack.NewsNoneIff | assignments/arith/bitpack/src/bitpack.rs:108-114 | `news` fails exactly when `fitss` does |
| Bitpack.NewsIsNewu | assignments/arith/bitpack/src/bitpack.rs:108-114 | a fitting value is written as its low `width` two's-complement bits by `newu` |
| Bitpack.NewsGets | assignments/arith/bitpack/src/bitpack.rs:108-114 | `gets` reads back the signed value `news` wrote |
| Bitpack.NewsFrame | assignments/arith/bitpack/src/bitpack.rs:108-114 | any field outside the written one reads as before |
| Bitpack.NewsAgreesWithNewu | assignments/arith/bitpack/src/bitpack.rs:79-114 | a non-negative value that fits in w signed bits is written the same by both |
| Bitpack.ShiftTestVectors | assignments/arith/bitpack/src/bitpack.rs:161-182 | the shift tests, including shifts by 64 or more and the i64::MIN result for a negative word |
| Bitpack.FitsuTestVectors | assignments/arith/bitpack/src/bitpack.rs:185-188 | 31 fits in 5 unsigned bits and 32 does not |
| Bitpack.FitssTestAsWritten | assignments/arith/bitpack/src/bitpack.rs:192-194 | the three asserted `fitss(…, 4)` calls are all false |
| Bitpack.FitssTestIntended | assignments/arith/bitpack/src/bitpack.rs:192-194 | 15 and −16 fit in 5 signed bits and 16 does not; at 4 bits the bounds are 7 and −8 |
| Bitpack.GetuTestVectors | assignments/arith/bitpack/src/bitpack.rs:198-213 | the unsigned reads of the get test |
| Bitpack.GetsTestVectors | assignments/arith/bitpack/src/bitpack.rs:198-213 | the signed reads of the get test |
| Bitpack.GetSignTestVectors | assignments/arith/bitpack/src/bitpack.rs:198-213 | a field with top bit 0 reads alike both ways, and 0b11 reads 3 unsigned, −1 signed |
| Bitpack.NewuTestVectors | assignments/arith/bitpack/src/bitpack.rs:216-222 | the four `newu` assertions of the new test |
| Bitpack.NewsTestAsWritten | assignments/arith/bitpack/src/bitpack.rs:223-226 | `news(0, 3, 2, 7)` and `news(0, 3, 0, 5)` are None, not the asserted values |
| Bitpack.NewsTestIntended | assignments/arith/bitpack/src/bitpack.rs:223-226 | 3 is written alike by both, and −3 is written as 0b101 |
| RpegPack.PackableIff | assignments/arith/rpeg/src/bitpack.rs:20-38 | `pack`'s unwraps succeed exactly when a < 512, b, c, d ∈ [−16, 15] and both indices < 16 |
| RpegPack.PutUnsigned | assignments/arith/rpeg/src/bitpack.rs:25 | a `newu(...).unwrap()` step on a word clear from `lsb` up adds value · 2^lsb and stays below 2^(width + lsb) |
| RpegPack.PutSigned | assignments/arith/rpeg/src/bitpack.rs:29 | a `news(...).unwrap()` step adds the value's `width`-bit two's complement · 2^lsb and stays below 2^(width + lsb) |
| RpegPack.Pack | assignments/arith/rpeg/src/bitpack.rs:20-38 | the word holds pr_index in bits 0-3, pb_index in 4-7, d in 8-12, c in 13-17, b in 18-22 and a in 23-31 |
| RpegPack.Unpack | assignments/arith/rpeg/src/bitpack.rs:45-62 | each field is read from the top of the 32 used bits down, the signed ones sign-extended |
| RpegPack.UnpackPack | assignments/arith/rpeg/src/bitpack.rs:20-62 | every packable block packs below 2^32 and unpacks to itself |
| RpegPack.UnpackIgnoresHighBits | assignments/arith/rpeg/src/bitpack.rs:45-62 | bits 32-63 of the word do not affect `unpack` |
| RpegPack.PackTestVector | assignments/arith/rpeg/src/bitpack.rs:70-106 | {281, −10, 15, −15, 1, 9} packs to 0b100011001_10110_01111_10001_0001_1001 and back |
| Array2.FromSingleValue | assignments/arith/array2/src/lib.rs:25-27 | a well-formed grid |
| Array2.SingleValueGet | assignments/arith/array2/src/lib.rs:25-27 | the grid is width x height and every in-range cell holds the value |
| Array2.FromRowMajor | assignments/arith/array2/src/lib.rs:31-34 | a well-formed grid |
| Array2.RowMajorGet | assignments/arith/array2/src/lib.rs:31-34 | the height is len / width and cell (r, c) is vec[r·width + c] |
| Array2.StridedStep | assignments/arith/array2/src/lib.rs:41 | `skip(i).step_by(h)` yields the value at i when i is in range and then continues from i + h; it is empty past the end |
| Array2.StridedComplete | assignments/arith/array2/src/lib.rs:41 | every position j ≥ i that is a whole number of strides past i is yielded, at index (j − i) / h |
| Array2.FromColMajor | assignments/arith/array2/src/lib.rs:38-44 | the loop builds the column-major grid |
| Array2.ColMajorGet | assignments/arith/array2/src/lib.rs:38-44 | the width is len / height and cell (r, c) is vec[r + c·height] |
| Array2.GetNoneIff | assignments/arith/array2/src/lib.rs:48-68 | `get` and `get_mut` are None exactly when r ≥ height or c ≥ width |
| Array2.PutFrame | assignments/arith/array2/src/lib.rs:60-68 | writing through `get_mut` changes that one cell and neither the bounds nor any other cell |
| Array2.RowMajorCell | assignments/arith/array2/src/lib.rs:31-34 | position k of the row-major reading of `from_row_major` is vec[k] |
| Array2.ColMajorCell | assignments/arith/array2/src/lib.rs:38-44 | position k of the column-major reading of `from_col_major` is vec[k] |
| Array2.RowMajorOfFromRowMajor | assignments/arith/array2/src/lib.rs:31-34 | reading a grid row by row recovers a whole-rows vec |
| Array2.ColMajorOfFromColMajor | assignments/arith/array2/src/lib.rs:38-44 | reading a column-major grid column by column recovers a whole-columns vec |
| Array2.RowMajorIter.constructor | assignments/arith/array2/src/lib.rs:81-85 | the iterator starts at (0, 0) |
| Array2.RowMajorIter.Next | assignments/arith/array2/src/lib.rs:99-111 | returns the value at the position, then moves one column right, wrapping to the next row after the last column |
| Array2.ColMajorIter.constructor | assignments/arith/array2/src/lib.rs:87-91 | the iterator starts at (0, 0) |
| Array2.ColMajorIter.Next | assignments/arith/array2/src/lib.rs:119-131 | returns the value at the position, then moves one row down, wrapping to the next column after the last row |
| Array2.RowMajorAt | assignments/arith/array2/src/lib.rs:99-111 | the row-major walk reads a value exactly at positions below width·height |
| Array2.ColMajorAt | assignments/arith/array2/src/lib.rs:119-131 | the column-major walk reads a value exactly at positions below width·height |
| Array2.CollectRowMajor | assignments/arith/array2/src/lib.rs:71-111 | collecting the row-major iterator yields the grid's cells in row-major order |
| Array2.CollectColMajor | assignments/arith/array2/src/lib.rs:75-131 | collecting the column-major iterator yields the cells in column-major order |
| Array2.AccessTestVectors | assignments/arith/array2/src/lib.rs:139-148 | the unit tests of `get` in and out of bounds |
| Array2.IterTestVectors | assignments/arith/array2/src/lib.rs:150-162 | the unit tests of both iteration orders |
| Array2.SingleValueTestVector | assignments/arith/array2/src/lib.rs:164-174 | the unit test of the 3 x 3 single-value grid |
| Codec.TrimColumn | assignments/arith/rpeg/src/codec.rs:141-145 | drops the last column and keeps every other cell in place |
| Codec.TrimRow | assignments/arith/rpeg/src/codec.rs:147-151 | drops the last row and keeps every other cell in place |
| Codec.TrimImage | assignments/arith/rpeg/src/codec.rs:134-154 | None (the source's panic) exactly on an odd width with height 0 or an odd height whose trimmed width is 0; an even-sized grid is returned unchanged; otherwise the result is width − width%2 by height − height%2 and keeps cell (r, c) for every kept position |
| Codec.TrimOddTestVector | assignments/arith/rpeg/src/codec.rs:213-217 | 3 x 3 [1..9] trims to [1, 2, 4, 5] |
| Codec.TrimEvenTestVector | assignments/arith/rpeg/src/codec.rs:220-224 | 4 x 2 [1..8] is kept whole |
| Codec.BlockCells | assignments/arith/rpeg/src/codec.rs:168-176 | block (i, j) is 2 x 2 and its cell (x, y) is image cell (2i + x, 2j + y) |
| Codec.Blockify | assignments/arith/rpeg/src/codec.rs:161-181 | the loops build a (width/2) x (height/2) grid of those blocks |
| Codec.Deblockified | assignments/arith/rpeg/src/codec.rs:188-205 | the flattened grid is twice the blocks grid in each dimension |
| Codec.Deblockify | assignments/arith/rpeg/src/codec.rs:188-205 | the loops build cell (2r + i, 2c + j) from cell (i, j) of block (r, c) |
| Codec.BlockifiedBlocked | assignments/arith/rpeg/src/codec.rs:161-181 | every block `blockify` builds is 2 x 2, so `deblockify`'s unwraps succeed on it |
| Codec.DeblockifyBlockify | assignments/arith/rpeg/src/codec.rs:156-205 | deblockifying the blocks of an even-sized grid gives back every value in place |
| Codec.BlockRoundTrip | assignments/arith/rpeg/src/codec.rs:156-205 | running `blockify` then `deblockify` as methods restores the grid |
| PpmTrans.Forward | assignments/locality/ppmtrans/src/main.rs:94-113 | every mapping sends an input position inside the output's bounds |
| PpmTrans.Backward | assignments/locality/ppmtrans/src/main.rs:94-113 | the inverse map sends an output position inside the input's bounds |
| PpmTrans.BackwardForward | assignments/locality/ppmtrans/src/main.rs:94-113 | the inverse undoes each mapping on input positions |
| PpmTrans.ForwardBackward | assignments/locality/ppmtrans/src/main.rs:94-113 | each mapping undoes the inverse on output positions, so every mapping is a bijection |
| PpmTrans.Transformed | assignments/locality/ppmtrans/src/main.rs:116-122 | the output's dimensions are swapped exactly for the three mappings called with `swap_dimensions` |
| PpmTrans.Transform | assignments/locality/ppmtrans/src/main.rs:116-141 | either traversal writes each pixel where the mapping sends it and produces the transformed image |
| PpmTrans.Rotate | assignments/locality/ppmtrans/src/main.rs:86-99 | the angle is taken mod 360; 0 returns the image, and 90, 180 and 270 give those rotations |
| PpmTrans.RotationAngles | assignments/locality/ppmtrans/src/main.rs:87-97 | a multiple of 90 mod 360 is 0, 90, 180 or 270, so the fall-through arm is never taken |
| PpmTrans.Flip | assignments/locality/ppmtrans/src/main.rs:101-110 | "horizontal" flips columns and "vertical" flips rows |
| PpmTrans.TransposeImage | assignments/locality/ppmtrans/src/main.rs:112-114 | the transposed image |
| PpmTrans.TransformedMoves | assignments/locality/ppmtrans/src/main.rs:94-113 | in(r, c) lands at (c, h−1−r), (h−1−r, w−1−c), (w−1−c, r), (r, w−1−c), (h−1−r, c) and (c, r) for the six mappings |
| PpmTrans.SelfInverse | assignments/locality/ppmtrans/src/main.rs:95-113 | a half turn, either flip and the transpose each undo themselves |
| PpmTrans.QuarterTurnsCancel | assignments/locality/ppmtrans/src/main.rs:94-96 | a 90° rotation and a 270° rotation undo each other |
| PpmTrans.TwoQuarterTurns | assignments/locality/ppmtrans/src/main.rs:94-95 | two 90° rotations are one 180° rotation |
| PpmTrans.TraversalOrderIrrelevant | assignments/locality/ppmtrans/src/main.rs:126-138 | the row-major and column-major traversals give the same image |
| Sudoku.SortSorted | assignments/iii/sudoku/src/main.rs:97 | sorting yields a sorted rearrangement of the values |
| Sudoku.SortedUnique | assignments/iii/sudoku/src/main.rs:97 | two sorted rearrangements of the same values are equal, so the sort is determined by the values |
| Sudoku.DedupStrict | assignments/iii/sudoku/src/main.rs:98 | deduplicating a sorted sequence leaves it strictly increasing |
| Sudoku.DedupMembers | assignments/iii/sudoku/src/main.rs:98 | deduplicating keeps only values the sequence had |
| Sudoku.DedupKeepsLength | assignments/iii/sudoku/src/main.rs:98 | deduplicating keeps the length exactly when no value equals its predecessor |
| Sudoku.DedupKeepsAll | assignments/iii/sudoku/src/main.rs:98 | a deduplication that keeps the length returns the sequence unchanged |
| Sudoku.NineValuesValidIsPermutation | assignments/iii/sudoku/src/main.rs:96-100 | nine values ≤ 9 that pass the check are 1 to 9 in some order |
| Sudoku.PermutationIsNineValuesValid | assignments/iii/sudoku/src/main.rs:96-100 | 1 to 9 in any order passes the check |
| Sudoku.NineValuesPermutation | assignments/iii/sudoku/src/main.rs:96-100 | for nine values ≤ 9 the check passes exactly when they are a permutation of 1 to 9 |
| Sudoku.MissingDigitFails | assignments/iii/sudoku/src/main.rs:96-100 | nine values ≤ 9 that miss a digit fail the check |
| Sudoku.RowChunks | assignments/iii/sudoku/src/main.rs:36-37 | the chunks of nine of the row-major walk are the board's rows |
| Sudoku.ColumnChunks | assignments/iii/sudoku/src/main.rs:52-53 | the chunks of nine of the column-major walk are the board's columns |
| Sudoku.AllRowsValid | assignments/iii/sudoku/src/main.rs:35-48 | true exactly when each of the nine rows passes the check |
| Sudoku.AllColumnsValid | assignments/iii/sudoku/src/main.rs:51-64 | true exactly when each of the nine columns passes the check |
| Sudoku.AllSquaresValid | assignments/iii/sudoku/src/main.rs:67-92 | true exactly when each of the nine 3 x 3 squares with corners at multiples of 3 passes the check |
| Sudoku.AllValidIsSolved | assignments/iii/sudoku/src/main.rs:17-21 | on a board of digits 0 to 9 the three checks pass exactly when every row, column and square is a permutation of 1 to 9 |
| Sudoku.Accepts | assignments/iii/sudoku/src/main.rs:17-21 | the board is accepted exactly when rows, columns and squares all pass, which on a board of digits is exactly when it is solved |
| FGroups.FirstSeparator | assignments/intro/fgroups/src/main.rs:16 | the position of the first space or tab, None exactly when there is none |
| FGroups.SplitOnceMeaning | assignments/intro/fgroups/src/main.rs:16 | `splitn(2, …)` gives the whole text when there is no space or tab, and otherwise the part before the first one and everything after it |
| FGroups.TrimStartMeaning | assignments/intro/fgroups/src/main.rs:22-23 | `trim_start` drops only leading whitespace, keeps the rest, and cannot start with whitespace |
| FGroups.ParseLineMeaning | assignments/intro/fgroups/src/main.rs:15-23 | a line is discarded exactly when it has no space or tab; otherwise the fingerprint precedes the first one and the name is the rest, left-trimmed |
| FGroups.AssembleMap | assignments/intro/fgroups/src/main.rs:11-34 | a fingerprint is a key exactly when some kept line has it, and its names are those lines' names in input order |
| FGroups.NamesOfAppend | assignments/intro/fgroups/src/main.rs:25-30 | grouping concatenated inputs concatenates their groups |
| FGroups.NamesOfHasLine | assignments/intro/fgroups/src/main.rs:25-30 | every kept line's name is in its fingerprint's group |
| FGroups.NamesOfOrigin | assignments/intro/fgroups/src/main.rs:25-30 | every name in a group comes from a kept line with exactly that fingerprint |
| FGroups.PrintNames | assignments/intro/fgroups/src/main.rs:36-40 | each name on its own line |
| FGroups.PrintGroups | assignments/intro/fgroups/src/main.rs:42-53 | the blocks of the groups of two or more names, in iteration order, with one blank line between blocks and none before the first |
| FGroups.PrintedBlocksAre | assignments/intro/fgroups/src/main.rs:46 | a block is printed exactly when it is the name list of a group of two or more names |
| FGroups.NoPairsNoOutput | assignments/intro/fgroups/src/main.rs:46 | when no fingerprint has two names nothing is printed |
| FGroups.PrintTestVector | assignments/intro/fgroups/src/main.rs:45-52 | two pairs print as the first pair, a blank line, then the second pair |
| Lab3.Square | labs/lab3/testing/src/lib.rs:1-3 | x², which is never negative and never overflows an i32 for any i16 |
| Lab3.SquareFits | labs/lab3/testing/src/lib.rs:1-3 | the i32 multiplication never overflows |
| Lab3.SquareTestVectors | labs/lab3/testing/src/lib.rs:15-27 | the lab's cases 2, −3 and 10000 |
| Lab3.FindMinimum | labs/lab3/testing/src/lib.rs:5-7 | an element of a non-empty v no greater than any element of v |
| Lab3.FindMinimumUnique | labs/lab3/testing/src/lib.rs:5-7 | that contract determines the result |
| Lab3.FindMinimumTestVectors | labs/lab3/testing/src/lib.rs:30-37 | the lab's cases, including a repeated minimum |

## Left out

- **Console and file I/O.**
  - assignments/rum/src/rumio.rs is not part of this model. UM output is a byte trace in the state, and input is a given byte sequence; reading past its end is the `EndOfInput` fault.
  - The file reading at assignments/profile/src/rumload.rs:15-19 is left out; `Load` takes the file's bytes.
  - fgroups reads lines from stdin and prints to stdout. Here the lines are a parameter and the printed text is a returned string.
  - Image reading and writing in sudoku and ppmtrans are left out.
- **Random choice of a free id.** `choose_open_index` draws random ids, and the model makes a nondeterministic choice of an unused id (0 when 0 is free). RumMem.Memory.Map: when every one of the 2^32 ids is in use, the source's redraw loop never ends; the model returns an error for that case.
- **Non-termination.** RumRun.Execute: a UM program may run forever, so the model runs for at most `fuel` instructions and reports `OutOfFuel` otherwise.
- **Floating-point rpeg stages.** normalize, component, dct, and `quantize`/`dequantize` are floating point and are left out. Only the field widths they use are kept.
- **Pipelines over crates that are not shown.** `compress`/`decompress` and the round-trip tests are left out.
- **Command-line entry points.** Also left out: the `main` functions, argument parsing and timing of rum, rumdump, ppmtrans and sudoku, plus sudoku's `grayimage_to_array2`. The board is a 9 x 9 grid parameter.
- Sudoku.SetOfNineValuesValid: the sum of the deduplicated values is unbounded here. The source adds u16s, which could overflow only for values far above 9, and the board's maximum value of 9 excludes those.
- **Pixel type.** The channels of ppmtrans's `Rgb` are assumed to be u16. ppmtrans's iterator yields (row, column, pixel) tuples and the shown `Array2` does not; `transform` is modelled as a walk over positions using `get`/`get_mut`.
- PpmTrans.Transform: requires the `swap_dimensions` flag to match the mapping, as all three callers pass it. A mismatched flag makes the source panic on an out-of-range `get_mut`.
- Array2.RowMajorIter.Next: requires a positive width. The source computes `width - 1` on a usize, which panics for width 0. Array2.ColMajorIter.Next likewise requires a positive height.
- **Array2 as a value.** `Array2` is a datatype, as the Rust value is owned and cloned. Writing through `get_mut` is the function `Put`, which returns the updated grid; references and aliasing are not modelled.
- **fgroups output order.** `HashMap` iteration order is a parameter of FGroups.PrintGroups, which holds for every order.
- Lab3.FindMinimum: it is stated over `int` values; the source is generic over `Ord`.
- **Module declarations.** The rpeg and bitpack `lib.rs` files hold only module declarations and tests; the tests are the source of the bit-packing laws above.

## Findings

| source | as written | input that shows it | evidently intended | confidence | as-written member | corrected member |
|---|---|---|---|---|---|---|
| assignments/profile/src/rummem.rs:94-96 | `unmap` pushes any id onto the free list, mapped or not | unmapping the never-mapped id 5 makes the next `map` fail; unmapping 1 twice makes two `map`s both return 1 | unmapping an id not in use does nothing (the corrected member also refuses id 0, which goes beyond the doc comment at rummem.rs:89 and follows the rule that segment 0 holds the program) | not executed | ProfileMem.Memory.Unmap | ProfileMem.Memory.UnmapIfMapped |
| assignments/arith/bitpack/src/bitpack.rs:223,226 | the test asserts `news(0, 3, 2, 7)` and `news(0, 3, 0, 5)` succeed | 7 and 5 do not fit in 3 signed bits (−4..3), so both are None | a value that fits, such as 3 or −3 | not executed | Bitpack.NewsTestAsWritten | Bitpack.NewsTestIntended |
| assignments/arith/bitpack/src/bitpack.rs:192-194 | the test asserts `fitss(15, 4)` and `fitss(-16, 4)` | 4 signed bits hold −8..7, so both are false | the bounds of 5 signed bits, 15 and −16 | not executed | Bitpack.FitssTestAsWritten | Bitpack.FitssTestIntended |
