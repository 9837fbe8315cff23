/** The `Array2` crate: a grid of `width` x `height` values stored as a vector of rows,
    with bounds-checked access and row-major and column-major iterators. */
module Array2 {
  import opened Words

  datatype Option<T> = None | Some(value: T)

  /** `Array2 { width, height, array }`.  `rows` is the `array` field; it holds the rows as the constructors built
      them; `from_row_major` can leave a short last row that lies beyond `height`, and
      `from_col_major` can leave rows longer than `width`. */
  datatype Array2<T> = Array2(width: nat, height: nat, rows: seq<seq<T>>)

  /** Every position inside the bounds has a stored value; all three constructors keep
      this, so `get` never indexes past a row. */
  predicate Valid<T>(a: Array2<T>)
  {
    |a.rows| >= a.height && forall r :: 0 <= r < a.height ==> |a.rows[r]| >= a.width
  }

  predicate InBounds<T>(a: Array2<T>, row: nat, column: nat)
  {
    row < a.height && column < a.width
  }

  /** Two grids of the same shape holding the same value in every cell; the stored rows
      may differ beyond the bounds. */
  ghost predicate SameCells<T>(x: Array2<T>, y: Array2<T>)
  {
    Valid(x) && Valid(y) && x.width == y.width && x.height == y.height &&
    forall r, c :: 0 <= r < x.height && 0 <= c < x.width ==> x.rows[r][c] == y.rows[r][c]
  }

  /** `from_single_value`: `height` rows of `width` copies of `value`. */
  function FromSingleValue<T>(value: T, width: nat, height: nat): (a: Array2<T>)
    ensures Valid(a)
  {
    Array2(width, height, seq(height, _ => seq(width, _ => value)))
  }

  /** `vec.chunks(width)`: consecutive pieces of `width` values, the last one possibly
      shorter. */
  function Chunks<T>(vec: seq<T>, width: nat): seq<seq<T>>
    requires width > 0
    decreases |vec|
  {
    if vec == [] then []
    else if |vec| <= width then [vec]
    else [vec[..width]] + Chunks(vec[width..], width)
  }

  /** `from_row_major`: the rows are the chunks of `width` values and the height is
      rounded down; `chunks` panics on a width of 0. */
  function FromRowMajor<T>(vec: seq<T>, width: nat): (a: Array2<T>)
    requires width > 0
    ensures Valid(a)
  {
    ChunksFull(vec, width);
    Array2(width, |vec| / width, Chunks(vec, width))
  }

  /** `vec.iter().skip(i).step_by(height)`: the values at i, i + height, i + 2 height, ... */
  function Strided<T>(vec: seq<T>, i: nat, height: nat): (s: seq<T>)
    requires height > 0
    ensures |s| == (if i >= |vec| then 0 else (|vec| - i - 1) / height + 1)
    ensures forall k :: 0 <= k < |s| ==> i + k * height < |vec| && s[k] == vec[i + k * height]
  {
    var n := if i >= |vec| then 0 else (|vec| - i - 1) / height + 1;
    StridedInRange(|vec|, i, height, n);
    seq(n, k requires 0 <= k < n => vec[i + k * height])
  }

  /** What `from_col_major` builds: row i is every `height`-th value from position i,
      and the width is rounded down. */
  function ColMajorGrid<T>(vec: seq<T>, height: nat): (a: Array2<T>)
    requires height > 0
    ensures Valid(a)
  {
    var a := Array2(|vec| / height, height, seq(height, i requires 0 <= i < height => Strided(vec, i, height)));
    assert forall r :: 0 <= r < height ==> |a.rows[r]| >= a.width by {
      forall r | 0 <= r < height
        ensures |a.rows[r]| >= a.width
      {
        StridedLength(|vec|, r, height);
      }
    }
    a
  }

  /** `from_col_major`: pushes the rows one by one; a height of 0 divides by zero. */
  method FromColMajor<T>(vec: seq<T>, height: nat) returns (a: Array2<T>)
    requires height > 0
    ensures a == ColMajorGrid(vec, height)
  {
    var rows: seq<seq<T>> := [];
    for i := 0 to height
      invariant rows == seq(i, j requires 0 <= j < i => Strided(vec, j, height))
    {
      rows := rows + [Strided(vec, i, height)];
    }
    a := Array2(|vec| / height, height, rows);
  }

  /** `get`: the value at (row, column), or None outside the bounds. */
  function Get<T>(a: Array2<T>, row: nat, column: nat): Option<T>
    requires Valid(a)
  {
    if InBounds(a, row, column) then Some(a.rows[row][column]) else None
  }

  /** Writing `value` through `get_mut(row, column)`: None outside the bounds, otherwise
      the grid with that one value replaced. */
  function Put<T>(a: Array2<T>, row: nat, column: nat, value: T): Option<Array2<T>>
    requires Valid(a)
  {
    if InBounds(a, row, column) then
      Some(a.(rows := a.rows[row := a.rows[row][column := value]]))
    else None
  }

  /** The values of a grid in row-major order. */
  function RowMajor<T>(a: Array2<T>): (s: seq<T>)
    requires Valid(a)
  {
    seq(a.width * a.height, k requires 0 <= k < a.width * a.height =>
      RowMajorIndex(k, a.width, a.height);
      a.rows[k / a.width][k % a.width])
  }

  /** The values of a grid in column-major order. */
  function ColMajor<T>(a: Array2<T>): (s: seq<T>)
    requires Valid(a)
  {
    seq(a.width * a.height, k requires 0 <= k < a.width * a.height =>
      ColMajorIndex(k, a.width, a.height);
      a.rows[k % a.height][k / a.height])
  }

  // ---------------------------------------------------------------------------------
  // Index arithmetic

  /** A product of naturals that is positive has positive factors. */
  lemma PositiveFactor(w: nat, h: nat)
    requires w * h > 0
    ensures w > 0
  {
    if w == 0 {
      MulLe(w, 0, h);
    }
  }

  /** Reading position k of a walk along rows of length n: the row k / n is below m
      exactly when k < n * m. */
  lemma WalkInside(k: nat, n: nat, m: nat)
    requires n > 0
    ensures k / n < m <==> k < n * m
  {
    if k / n < m {
      DigitBound(k / n, m, k % n, n);
    }
    if k / n >= m {
      MulLe(m, k / n, n);
      DivMulLe(k, n);
    }
  }

  /** x / d is at least m when x is at least m * d. */
  lemma DivAtLeast(x: nat, m: nat, d: nat)
    requires d > 0 && x >= m * d
    ensures x / d >= m
  {
    if x / d < m {
      DigitBound(x / d, m, x % d, d);
    }
  }

  lemma RowMajorIndex(k: nat, width: nat, height: nat)
    requires k < width * height
    ensures width > 0 && k / width < height && k % width < width
  {
    PositiveFactor(width, height);
    WalkInside(k, width, height);
  }

  lemma ColMajorIndex(k: nat, width: nat, height: nat)
    requires k < width * height
    ensures height > 0 && k % height < height && k / height < width
  {
    RowMajorIndex(k, height, width);
  }

  lemma StridedInRange(len: nat, i: nat, height: nat, n: nat)
    requires height > 0 && n == (if i >= len then 0 else (len - i - 1) / height + 1)
    ensures forall k :: 0 <= k < n ==> i + k * height < len
  {
    forall k | 0 <= k < n
      ensures i + k * height < len
    {
      var q := (len - i - 1) / height;
      DivMulLe(len - i - 1, height);
      MulLe(k, q, height);
    }
  }

  /** `skip(i).step_by(height)` yields the value at i, if there is one, and then steps
      `height` positions on. */
  lemma {:induction false} StridedStep<T>(vec: seq<T>, i: nat, height: nat)
    requires height > 0
    ensures Strided(vec, i, height) ==
      if i >= |vec| then [] else [vec[i]] + Strided(vec, i + height, height)
  {
    if i < |vec| {
      var s, t := Strided(vec, i, height), Strided(vec, i + height, height);
      var x := |vec| - i - 1;
      if i + height >= |vec| {
        DivModUnique(x, height, 0, x);
      } else {
        DivAddMultiple(x - height, 1, height);
      }
      assert |s| == |t| + 1;
      forall k | 0 <= k < |t|
        ensures s[k + 1] == t[k]
      {
        assert i + (k + 1) * height == i + height + k * height;
      }
      assert s == [vec[i]] + t;
    }
  }

  /** Every position j from i on that is a whole number of strides past i is taken, at
      index (j - i) / height. */
  lemma StridedComplete<T>(vec: seq<T>, i: nat, height: nat, j: nat)
    requires height > 0 && i <= j < |vec| && (j - i) % height == 0
    ensures (j - i) / height < |Strided(vec, i, height)|
    ensures Strided(vec, i, height)[(j - i) / height] == vec[j]
  {
    var q := (j - i) / height;
    DivModUnique(j - i, height, q, 0);
    DivAddMultiple(|vec| - 1 - j, q, height);
    assert |vec| - 1 - j + q * height == |vec| - i - 1;
  }

  /** Row i < height of a column-major grid holds at least len / height values. */
  lemma StridedLength(len: nat, i: nat, height: nat)
    requires height > 0 && i < height
    ensures (if i >= len then 0 else (len - i - 1) / height + 1) >= len / height
  {
    var w := len / height;
    if w > 0 {
      DivMulLe(len, height);
      MulAtLeast(w, height);
      MulAddDistrib(w - 1, 1, 1, height);
      DivAtLeast(len - i - 1, w - 1, height);
    }
  }

  /** Chunk r < len / width is the r-th run of `width` values. */
  lemma {:induction false} ChunkAt<T>(vec: seq<T>, width: nat, r: nat)
    requires width > 0 && r < |vec| / width
    ensures (r + 1) * width <= |vec| && r < |Chunks(vec, width)|
    ensures Chunks(vec, width)[r] == vec[r * width..(r + 1) * width]
  {
    var n := |vec| / width;
    DivMulLe(|vec|, width);
    MulLe(r + 1, n, width);
    if r > 0 {
      var rest := vec[width..];
      MulAddDistrib(r, 1, 1, width);
      MulAddDistrib(r - 1, 1, 1, width);
      MulAtLeast(r, width);
      assert Chunks(vec, width) == [vec[..width]] + Chunks(rest, width);
      DivAddMultiple(|rest|, 1, width);
      assert |rest| / width == n - 1;
      ChunkAt(rest, width, r - 1);
      assert rest[(r - 1) * width..r * width] == vec[r * width..(r + 1) * width];
    } else {
      assert (r + 1) * width == width && r * width == 0;
      assert Chunks(vec, width)[0] == vec[..width];
    }
  }

  /** Cell (r, c) of the chunks is value r * width + c. */
  lemma ChunkCell<T>(vec: seq<T>, width: nat, r: nat, c: nat)
    requires width > 0 && r < |vec| / width && c < width
    ensures r < |Chunks(vec, width)| && |Chunks(vec, width)[r]| == width
    ensures r * width + c < |vec| && Chunks(vec, width)[r][c] == vec[r * width + c]
  {
    ChunkAt(vec, width, r);
    MulAddDistrib(r, 1, 1, width);
  }

  /** A vector of n * width values falls into exactly n chunks. */
  lemma {:induction false} ChunksCount<T>(vec: seq<T>, width: nat, n: nat)
    requires width > 0 && |vec| == n * width
    ensures |Chunks(vec, width)| == n
  {
    if n > 1 {
      MulAddDistrib(n - 1, 1, 1, width);
      MulAtLeast(n - 1, width);
      ChunksCount(vec[width..], width, n - 1);
    } else if n == 1 {
      assert |vec| == width;
    } else {
      assert |vec| == 0;
    }
  }

  /** Every full chunk has `width` values. */
  lemma ChunksFull<T>(vec: seq<T>, width: nat)
    requires width > 0
    ensures |Chunks(vec, width)| >= |vec| / width
    ensures forall r :: 0 <= r < |vec| / width ==> |Chunks(vec, width)[r]| == width
  {
    if |vec| / width > 0 {
      ChunkAt(vec, width, |vec| / width - 1);
    }
    forall r | 0 <= r < |vec| / width
      ensures |Chunks(vec, width)[r]| == width
    {
      ChunkAt(vec, width, r);
      assert (r + 1) * width == r * width + width;
    }
  }

  // ---------------------------------------------------------------------------------
  // What the constructors and accessors promise

  /** `get` and `get_mut` return None exactly outside the bounds. */
  lemma GetNoneIff<T>(a: Array2<T>, row: nat, column: nat, value: T)
    requires Valid(a)
    ensures Get(a, row, column).None? <==> row >= a.height || column >= a.width
    ensures Put(a, row, column, value).None? <==> row >= a.height || column >= a.width
  {
  }

  /** Every cell of `from_single_value` holds the value. */
  lemma SingleValueGet<T>(value: T, width: nat, height: nat, row: nat, column: nat)
    ensures var a := FromSingleValue(value, width, height);
      a.width == width && a.height == height &&
      Get(a, row, column) == if row < height && column < width then Some(value) else None
  {
  }

  /** `from_row_major` is `vec` read row by row: height len / width, cell (r, c) at
      r * width + c. */
  lemma RowMajorGet<T>(vec: seq<T>, width: nat, row: nat, column: nat)
    requires width > 0
    ensures var a := FromRowMajor(vec, width);
      a.height == |vec| / width &&
      (InBounds(a, row, column) ==>
        row * width + column < |vec| && Get(a, row, column) == Some(vec[row * width + column]))
  {
    if row < |vec| / width && column < width {
      ChunkCell(vec, width, row, column);
    }
  }

  /** `from_col_major` is `vec` read column by column: width len / height, cell (r, c) at
      r + c * height. */
  lemma ColMajorGet<T>(vec: seq<T>, height: nat, row: nat, column: nat)
    requires height > 0
    ensures var a := ColMajorGrid(vec, height);
      a.width == |vec| / height &&
      (InBounds(a, row, column) ==>
        row + column * height < |vec| && Get(a, row, column) == Some(vec[row + column * height]))
  {
    var a := ColMajorGrid(vec, height);
    if InBounds(a, row, column) {
      StridedLength(|vec|, row, height);
      var s := Strided(vec, row, height);
      assert a.rows[row] == s;
      assert s[column] == vec[row + column * height];
    }
  }

  /** Writing through `get_mut` changes exactly that one cell and keeps the bounds. */
  lemma PutFrame<T>(a: Array2<T>, row: nat, column: nat, value: T, r: nat, c: nat)
    requires Valid(a) && InBounds(a, row, column)
    ensures Put(a, row, column, value).Some?
    ensures var b := Put(a, row, column, value).value;
      Valid(b) && b.width == a.width && b.height == a.height &&
      Get(b, r, c) == if (r, c) == (row, column) then Some(value) else Get(a, r, c)
  {
  }

  /** Position k of the row-major reading of `from_row_major` is value k. */
  lemma RowMajorCell<T>(vec: seq<T>, width: nat, k: nat)
    requires width > 0 && k < width * (|vec| / width)
    ensures k < |RowMajor(FromRowMajor(vec, width))| && RowMajor(FromRowMajor(vec, width))[k] == vec[k]
  {
    RowMajorIndex(k, width, |vec| / width);
    ChunkCell(vec, width, k / width, k % width);
  }

  /** Position k of the column-major reading of `from_col_major` is value k. */
  lemma ColMajorCell<T>(vec: seq<T>, height: nat, k: nat)
    requires height > 0 && k < (|vec| / height) * height
    ensures k < |ColMajor(ColMajorGrid(vec, height))| && ColMajor(ColMajorGrid(vec, height))[k] == vec[k]
  {
    var a := ColMajorGrid(vec, height);
    var row, column := k % height, k / height;
    ColMajorIndex(k, a.width, height);
    ColMajorGet(vec, height, row, column);
    ModDivParts(k, height);
    assert ColMajor(a)[k] == a.rows[row][column];
  }

  /** k is its remainder plus its quotient times d. */
  lemma ModDivParts(k: nat, d: nat)
    requires d > 0
    ensures k % d + (k / d) * d == k
  {
  }

  /** A length that is a multiple of d is (length / d) * d. */
  lemma ExactDiv(n: nat, d: nat)
    requires d > 0 && n % d == 0
    ensures (n / d) * d == n && d * (n / d) == n
  {
    DivModUnique(n, d, n / d, 0);
  }

  /** Reading a grid row by row recovers a `vec` whose length is a multiple of the width. */
  lemma RowMajorOfFromRowMajor<T>(vec: seq<T>, width: nat)
    requires width > 0 && |vec| % width == 0
    ensures RowMajor(FromRowMajor(vec, width)) == vec
  {
    var r := RowMajor(FromRowMajor(vec, width));
    ExactDiv(|vec|, width);
    forall k | 0 <= k < |vec|
      ensures r[k] == vec[k]
    {
      RowMajorCell(vec, width, k);
    }
  }

  /** Reading a column-major grid column by column recovers a `vec` whose length is a
      multiple of the height. */
  lemma ColMajorOfFromColMajor<T>(vec: seq<T>, height: nat)
    requires height > 0 && |vec| % height == 0
    ensures ColMajor(ColMajorGrid(vec, height)) == vec
  {
    var c := ColMajor(ColMajorGrid(vec, height));
    ExactDiv(|vec|, height);
    forall k | 0 <= k < |vec|
      ensures c[k] == vec[k]
    {
      ColMajorCell(vec, height, k);
    }
  }

  // ---------------------------------------------------------------------------------
  // Iterators

  /** Moving from position k to k + 1 of a walk along rows of length n: the column
      wraps to 0 and the row advances at the end of a row. */
  lemma WalkStep(k: nat, n: nat)
    requires n > 0
    ensures k % n == n - 1 ==> (k + 1) % n == 0 && (k + 1) / n == k / n + 1
    ensures k % n != n - 1 ==> (k + 1) % n == k % n + 1 && (k + 1) / n == k / n
  {
    var q, r := k / n, k % n;
    if r == n - 1 {
      MulAddDistrib(q, 1, 1, n);
      DivModUnique(k + 1, n, q + 1, 0);
    } else {
      DivModUnique(k + 1, n, q, r + 1);
    }
  }

  /** `Array2IterRowMajor`: the next position to read, over a borrowed grid. */
  class RowMajorIter<T> {
    var row: nat
    var column: nat
    const grid: Array2<T>

    /** `iter_row_major`: starts at (0, 0). */
    constructor (a: Array2<T>)
      ensures row == 0 && column == 0 && grid == a
    {
      row := 0;
      column := 0;
      grid := a;
    }

    /** `next`: the value at the current position (None past the end), then one column
        on, wrapping to the next row after the last column.  `width - 1` underflows for an
        empty width, so the width must be positive. */
    method Next() returns (r: Option<T>)
      requires Valid(grid) && grid.width > 0
      modifies this
      ensures r == Get(grid, old(row), old(column))
      ensures old(column) == grid.width - 1 ==> row == old(row) + 1 && column == 0
      ensures old(column) != grid.width - 1 ==> row == old(row) && column == old(column) + 1
    {
      r := Get(grid, row, column);
      if column == grid.width - 1 {
        column := 0;
        row := row + 1;
      } else {
        column := column + 1;
      }
    }
  }

  /** `Array2IterColumnMajor`: the same walk down the columns. */
  class ColMajorIter<T> {
    var row: nat
    var column: nat
    const grid: Array2<T>

    /** `iter_col_major`: starts at (0, 0). */
    constructor (a: Array2<T>)
      ensures row == 0 && column == 0 && grid == a
    {
      row := 0;
      column := 0;
      grid := a;
    }

    /** `next`: the value at the current position, then one row down, wrapping to the
        next column after the last row; the height must be positive. */
    method Next() returns (r: Option<T>)
      requires Valid(grid) && grid.height > 0
      modifies this
      ensures r == Get(grid, old(row), old(column))
      ensures old(row) == grid.height - 1 ==> column == old(column) + 1 && row == 0
      ensures old(row) != grid.height - 1 ==> column == old(column) && row == old(row) + 1
    {
      r := Get(grid, row, column);
      if row == grid.height - 1 {
        row := 0;
        column := column + 1;
      } else {
        row := row + 1;
      }
    }
  }

  /** What the row-major walk reads at its k-th position. */
  function RowMajorRead<T>(a: Array2<T>, k: nat): Option<T>
    requires Valid(a) && a.width > 0
  {
    Get(a, k / a.width, k % a.width)
  }

  /** What the column-major walk reads at its k-th position. */
  function ColMajorRead<T>(a: Array2<T>, k: nat): Option<T>
    requires Valid(a) && a.height > 0
  {
    Get(a, k % a.height, k / a.height)
  }

  /** Position k of the row-major walk reads a value exactly while k is inside the grid. */
  lemma RowMajorAt<T>(a: Array2<T>, k: nat)
    requires Valid(a) && a.width > 0
    ensures RowMajorRead(a, k).Some? <==> k < a.width * a.height
  {
    WalkInside(k, a.width, a.height);
  }

  /** The same for the column-major walk. */
  lemma ColMajorAt<T>(a: Array2<T>, k: nat)
    requires Valid(a) && a.height > 0
    ensures ColMajorRead(a, k).Some? <==> k < a.width * a.height
  {
    WalkInside(k, a.height, a.width);
  }

  /** The values read at positions 0, 1, ... of the row-major walk are the row-major
      reading of the grid. */
  lemma RowMajorWalk<T>(a: Array2<T>, s: seq<T>)
    requires Valid(a) && a.width > 0 && |s| == a.width * a.height
    requires forall j :: 0 <= j < |s| ==> RowMajorRead(a, j) == Some(s[j])
    ensures s == RowMajor(a)
  {
  }

  /** The same for the column-major walk. */
  lemma ColMajorWalk<T>(a: Array2<T>, s: seq<T>)
    requires Valid(a) && a.height > 0 && |s| == a.width * a.height
    requires forall j :: 0 <= j < |s| ==> ColMajorRead(a, j) == Some(s[j])
    ensures s == ColMajor(a)
  {
  }

  /** `iter_row_major().collect()`: calls `next` until the first None. */
  method CollectRowMajor<T>(a: Array2<T>) returns (s: seq<T>)
    requires Valid(a) && a.width > 0
    ensures s == RowMajor(a)
  {
    var w := a.width;
    var it := new RowMajorIter(a);
    s := [];
    var x := it.Next();
    DivModUnique(0, w, 0, 0);
    WalkStep(0, w);
    RowMajorAt(a, 0);
    while x.Some?
      invariant it.grid == a && |s| <= w * a.height
      invariant it.row == (|s| + 1) / w && it.column == (|s| + 1) % w
      invariant x == RowMajorRead(a, |s|)
      invariant x.Some? <==> |s| < w * a.height
      invariant forall j :: 0 <= j < |s| ==> RowMajorRead(a, j) == Some(s[j])
      decreases w * a.height - |s|
    {
      s := s + [x.value];
      WalkStep(|s|, w);
      RowMajorAt(a, |s|);
      ghost var row, column := |s| / w, |s| % w;
      assert it.row == row && it.column == column;
      x := it.Next();
      assert x == Get(a, row, column);
    }
    RowMajorWalk(a, s);
  }

  /** `iter_col_major().collect()`. */
  method CollectColMajor<T>(a: Array2<T>) returns (s: seq<T>)
    requires Valid(a) && a.height > 0
    ensures s == ColMajor(a)
  {
    var h := a.height;
    var it := new ColMajorIter(a);
    s := [];
    var x := it.Next();
    DivModUnique(0, h, 0, 0);
    WalkStep(0, h);
    ColMajorAt(a, 0);
    while x.Some?
      invariant it.grid == a && |s| <= a.width * h
      invariant it.column == (|s| + 1) / h && it.row == (|s| + 1) % h
      invariant x == ColMajorRead(a, |s|)
      invariant x.Some? <==> |s| < a.width * h
      invariant forall j :: 0 <= j < |s| ==> ColMajorRead(a, j) == Some(s[j])
      decreases a.width * h - |s|
    {
      s := s + [x.value];
      WalkStep(|s|, h);
      ColMajorAt(a, |s|);
      ghost var row, column := |s| % h, |s| / h;
      assert it.row == row && it.column == column;
      x := it.Next();
      assert x == Get(a, row, column);
    }
    ColMajorWalk(a, s);
  }

  /** The access tests on the 3-wide grid [1, 2, 3, 4, 5, 6]: (0, 1) holds 2 and row 2
      does not exist. */
  lemma AccessTestVectors()
    ensures var a := FromRowMajor([1, 2, 3, 4, 5, 6], 3);
      Get(a, 0, 1) == Some(2) && Get(a, 2, 0) == None
  {
    var v := [1, 2, 3, 4, 5, 6];
    RowMajorGet(v, 3, 0, 1);
    assert FromRowMajor(v, 3).height == 2;
  }

  /** The iteration tests on the same grid: the row-major walk gives the vector back and
      the column-major walk gives 1, 4, 2, 5, 3, 6. */
  lemma IterTestVectors()
    ensures var a := FromRowMajor([1, 2, 3, 4, 5, 6], 3);
      RowMajor(a) == [1, 2, 3, 4, 5, 6] && ColMajor(a) == [1, 4, 2, 5, 3, 6]
  {
    var v := [1, 2, 3, 4, 5, 6];
    var a := FromRowMajor(v, 3);
    RowMajorOfFromRowMajor(v, 3);
    assert a.height == 2;
    ChunksFull(v, 3);
    var c := ColMajor(a);
    assert |c| == 6;
    assert c[0] == a.rows[0][0] == 1 && c[1] == a.rows[1][0] == 4;
    assert c[2] == a.rows[0][1] == 2 && c[3] == a.rows[1][1] == 5;
    assert c[4] == a.rows[0][2] == 3 && c[5] == a.rows[1][2] == 6;
  }

  /** `from_single_value(0, 3, 3)` holds three rows of three zeros. */
  lemma SingleValueTestVector()
    ensures FromSingleValue(0, 3, 3).rows == [[0, 0, 0], [0, 0, 0], [0, 0, 0]]
  {
    var z := FromSingleValue(0, 3, 3);
    assert z.rows[0] == [0, 0, 0];
  }
}
