/** The grid reshaping stages of the rpeg codec: trimming an image to even dimensions, and
    cutting it into 2 x 2 blocks and back. */
module Codec {
  import opened Words
  import opened Array2

  // ---------------------------------------------------------------------------------
  // trim_image

  /** Dropping the last column through a column-major rewrite keeps every other cell. */
  lemma DropLastColumn<T>(a: Array2<T>)
    requires Valid(a) && a.width > 0 && a.height > 0
    ensures a.width * a.height - a.height == (a.width - 1) * a.height <= |ColMajor(a)|
    ensures 0 <= a.width * a.height - a.height <= |ColMajor(a)|
    ensures var t := ColMajorGrid(ColMajor(a)[..(a.width - 1) * a.height], a.height);
      t.width == a.width - 1 && t.height == a.height &&
      forall r, c :: 0 <= r < t.height && 0 <= c < t.width ==> t.rows[r][c] == a.rows[r][c]
  {
    var h := a.height;
    MulAddDistrib(a.width - 1, 1, 1, h);
    MulLe(a.width - 1, a.width, h);
    var v := ColMajor(a)[..(a.width - 1) * h];
    MulDiv(a.width - 1, h);
    forall r, c | 0 <= r < h && 0 <= c < a.width - 1
      ensures ColMajorGrid(v, h).rows[r][c] == a.rows[r][c]
    {
      MulLe(0, c, h);
      var k: nat := r + c * h;
      ColMajorGet(v, h, r, c);
      DivModUnique(k, h, c, r);
      ColMajorIndex(k, a.width, h);
    }
  }

  /** Dropping the last row through a row-major rewrite keeps every other cell. */
  lemma DropLastRow<T>(a: Array2<T>)
    requires Valid(a) && a.width > 0 && a.height > 0
    ensures a.width * a.height - a.width == a.width * (a.height - 1) <= |RowMajor(a)|
    ensures 0 <= a.width * a.height - a.width <= |RowMajor(a)|
    ensures var t := FromRowMajor(RowMajor(a)[..a.width * (a.height - 1)], a.width);
      t.width == a.width && t.height == a.height - 1 &&
      forall r, c :: 0 <= r < t.height && 0 <= c < t.width ==> t.rows[r][c] == a.rows[r][c]
  {
    var w := a.width;
    MulAddDistrib(a.height - 1, 1, 1, w);
    MulLe(a.height - 1, a.height, w);
    var v := RowMajor(a)[..w * (a.height - 1)];
    MulDiv(a.height - 1, w);
    forall r, c | 0 <= r < a.height - 1 && 0 <= c < w
      ensures FromRowMajor(v, w).rows[r][c] == a.rows[r][c]
    {
      MulLe(0, r, w);
      var k: nat := r * w + c;
      RowMajorGet(v, w, r, c);
      DivModUnique(k, w, r, c);
      RowMajorIndex(k, w, a.height);
    }
  }

  /** The odd-width step of `trim_image`: collect column-major, drop the last `height`
      values, rebuild column-major. */
  method TrimColumn<T>(grid: Array2<T>) returns (t: Array2<T>)
    requires Valid(grid) && grid.width > 0 && grid.height > 0
    ensures Valid(t) && t.width == grid.width - 1 && t.height == grid.height
    ensures forall row, col :: 0 <= row < t.height && 0 <= col < t.width ==> t.rows[row][col] == grid.rows[row][col]
  {
    DropLastColumn(grid);
    var newVec := CollectColMajor(grid);
    newVec := newVec[..grid.width * grid.height - grid.height];
    t := FromColMajor(newVec, grid.height);
  }

  /** The odd-height step of `trim_image`: collect row-major, drop the last `width`
      values, rebuild row-major. */
  method TrimRow<T>(grid: Array2<T>) returns (t: Array2<T>)
    requires Valid(grid) && grid.width > 0 && grid.height > 0
    ensures Valid(t) && t.width == grid.width && t.height == grid.height - 1
    ensures forall row, col :: 0 <= row < t.height && 0 <= col < t.width ==> t.rows[row][col] == grid.rows[row][col]
  {
    DropLastRow(grid);
    var newVec := CollectRowMajor(grid);
    newVec := newVec[..grid.width * grid.height - grid.width];
    t := FromRowMajor(newVec, grid.width);
  }

  /** The shapes on which `trim_image` panics: an odd width with no rows (the column-major
      rebuild divides by a height of 0), and an odd height once the width is trimmed to 0
      (the row-major rebuild chunks by a width of 0). */
  predicate TrimPanics<T>(grid: Array2<T>)
  {
    (grid.width % 2 != 0 && grid.height == 0) ||
    (grid.height % 2 != 0 && grid.width - grid.width % 2 == 0)
  }

  /** `trim_image`: an odd width loses its last column and an odd height its last row;
      even dimensions return the grid itself.  None stands for the panic on the shapes
      of `TrimPanics`. */
  method TrimImage<T>(grid: Array2<T>) returns (r: Option<Array2<T>>)
    requires Valid(grid)
    ensures r.None? <==> TrimPanics(grid)
    ensures grid.width % 2 == 0 && grid.height % 2 == 0 ==> r == Some(grid)
    ensures r.Some? ==> Valid(r.value)
    ensures r.Some? ==> r.value.width == grid.width - grid.width % 2
    ensures r.Some? ==> r.value.height == grid.height - grid.height % 2
    ensures r.Some? ==> forall row, col :: 0 <= row < r.value.height && 0 <= col < r.value.width ==>
      r.value.rows[row][col] == grid.rows[row][col]
  {
    if grid.width % 2 == 0 && grid.height % 2 == 0 {
      return Some(grid);
    }
    var newArray := grid;
    if grid.width % 2 != 0 {
      if grid.height == 0 {
        return None;
      }
      newArray := TrimColumn(newArray);
    }
    if grid.height % 2 != 0 {
      if newArray.width == 0 {
        return None;
      }
      newArray := TrimRow(newArray);
    }
    r := Some(newArray);
  }

  /** The first trim unit test: the 3 x 3 grid 1..9 keeps 1, 2, 4, 5. */
  method TrimOddTestVector() returns (odd: seq<int>)
    ensures odd == [1, 2, 4, 5]
  {
    var v := [1, 2, 3, 4, 5, 6, 7, 8, 9];
    var a := FromRowMajor(v, 3);
    assert a.width == 3 && a.height == 3;
    ChunkCell(v, 3, 0, 0);
    ChunkCell(v, 3, 0, 1);
    ChunkCell(v, 3, 1, 0);
    ChunkCell(v, 3, 1, 1);
    var trimmed := TrimImage(a);
    var t := trimmed.value;
    odd := CollectRowMajor(t);
    assert odd[0] == t.rows[0][0] && odd[1] == t.rows[0][1] && odd[2] == t.rows[1][0] && odd[3] == t.rows[1][1];
  }

  /** The second trim unit test: the 4 x 2 grid 1..8 is returned as it is. */
  method TrimEvenTestVector() returns (even: seq<int>)
    ensures even == [1, 2, 3, 4, 5, 6, 7, 8]
  {
    var u := [1, 2, 3, 4, 5, 6, 7, 8];
    var b := FromRowMajor(u, 4);
    assert b.width == 4 && b.height == 2;
    var trimmed := TrimImage(b);
    even := CollectRowMajor(trimmed.value);
    RowMajorOfFromRowMajor(u, 4);
  }

  // ---------------------------------------------------------------------------------
  // blockify and deblockify

  /** The 2 x 2 block (i, j) of a grid. */
  function Block<T>(a: Array2<T>, i: nat, j: nat): Array2<T>
    requires Valid(a) && 2 * i + 1 < a.height && 2 * j + 1 < a.width
  {
    Array2(2, 2, [[a.rows[2 * i][2 * j], a.rows[2 * i][2 * j + 1]],
                  [a.rows[2 * i + 1][2 * j], a.rows[2 * i + 1][2 * j + 1]]])
  }

  /** A block is a 2 x 2 grid whose cell (x, y) is cell (2i + x, 2j + y) of the image. */
  lemma BlockCells<T>(a: Array2<T>, i: nat, j: nat)
    requires Valid(a) && 2 * i + 1 < a.height && 2 * j + 1 < a.width
    ensures var b := Block(a, i, j);
      Valid(b) && b.width == 2 && b.height == 2 &&
      forall x, y :: 0 <= x < 2 && 0 <= y < 2 ==> b.rows[x][y] == a.rows[2 * i + x][2 * j + y]
  {
  }

  /** What `blockify` builds: a (width / 2) x (height / 2) grid of blocks. */
  function Blockified<T>(a: Array2<T>): (b: Array2<Array2<T>>)
    requires Valid(a) && a.width % 2 == 0 && a.height % 2 == 0
    ensures Valid(b)
  {
    Array2(a.width / 2, a.height / 2,
      seq(a.height / 2, i requires 0 <= i < a.height / 2 =>
        seq(a.width / 2, j requires 0 <= j < a.width / 2 => Block(a, i, j))))
  }

  /** A grid of blocks each at least 2 x 2, so that every `get(i, j)` of `deblockify`
      succeeds. */
  predicate Blocked<T>(b: Array2<Array2<T>>)
  {
    Valid(b) &&
    forall i, j :: 0 <= i < b.height && 0 <= j < b.width ==>
      Valid(b.rows[i][j]) && b.rows[i][j].width >= 2 && b.rows[i][j].height >= 2
  }

  /** What `deblockify` builds: cell (r, c) is cell (r % 2, c % 2) of block (r / 2, c / 2). */
  function Deblockified<T>(b: Array2<Array2<T>>): (d: Array2<T>)
    requires Blocked(b)
    ensures Valid(d) && d.width == 2 * b.width && d.height == 2 * b.height
  {
    Array2(2 * b.width, 2 * b.height,
      seq(2 * b.height, r requires 0 <= r < 2 * b.height =>
        seq(2 * b.width, c requires 0 <= c < 2 * b.width => b.rows[r / 2][c / 2].rows[r % 2][c % 2])))
  }

  /** The blocks before block (bi, bj), in row-major order, hold the image's blocks. */
  ghost predicate BlocksUpTo<T>(blocks: Array2<Array2<T>>, grid: Array2<T>, bi: nat, bj: nat)
    requires Valid(grid) && grid.width % 2 == 0 && grid.height % 2 == 0
  {
    Valid(blocks) && blocks.width == grid.width / 2 && blocks.height == grid.height / 2 &&
    forall i, j :: 0 <= i < blocks.height && 0 <= j < blocks.width && (i < bi || (i == bi && j < bj)) ==>
      blocks.rows[i][j] == Block(grid, i, j)
  }

  /** Writing block (bi, bj) extends the filled part by one block. */
  lemma BlockifyStep<T>(blocks: Array2<Array2<T>>, grid: Array2<T>, bi: nat, bj: nat)
    requires Valid(grid) && grid.width % 2 == 0 && grid.height % 2 == 0
    requires BlocksUpTo(blocks, grid, bi, bj) && bi < grid.height / 2 && bj < grid.width / 2
    ensures Put(blocks, bi, bj, Block(grid, bi, bj)).Some?
    ensures BlocksUpTo(Put(blocks, bi, bj, Block(grid, bi, bj)).value, grid, bi, bj + 1)
  {
  }

  /** The four values `blockify` gathers at (row, col), made into a 2 x 2 grid, are block
      (row / 2, col / 2). */
  lemma BlockItems<T>(grid: Array2<T>, row: nat, col: nat)
    requires Valid(grid) && row % 2 == 0 && col % 2 == 0 && row + 1 < grid.height && col + 1 < grid.width
    ensures FromRowMajor([Get(grid, row, col).value, Get(grid, row, col + 1).value,
                          Get(grid, row + 1, col).value, Get(grid, row + 1, col + 1).value], 2)
      == Block(grid, row / 2, col / 2)
  {
    var items := [Get(grid, row, col).value, Get(grid, row, col + 1).value,
                  Get(grid, row + 1, col).value, Get(grid, row + 1, col + 1).value];
    assert 2 * (row / 2) == row && 2 * (col / 2) == col;
    assert items[..2] == [items[0], items[1]] && items[2..] == [items[2], items[3]];
    assert Chunks(items[2..], 2) == [items[2..]];
    assert Chunks(items, 2) == [items[..2]] + Chunks(items[2..], 2);
  }

  /** `blockify`: fills a grid of default blocks, visiting the image two rows and two
      columns at a time; the `unwrap`s need even dimensions. */
  method Blockify<T>(grid: Array2<T>, defaultValue: T) returns (blocks: Array2<Array2<T>>)
    requires Valid(grid) && grid.width % 2 == 0 && grid.height % 2 == 0
    ensures SameCells(blocks, Blockified(grid))
  {
    var w, h := grid.width, grid.height;
    blocks := FromSingleValue(FromSingleValue(defaultValue, 2, 2), w / 2, h / 2);
    var row := 0;
    while row < h
      invariant row % 2 == 0 && row <= h
      invariant BlocksUpTo(blocks, grid, row / 2, 0)
      decreases h - row
    {
      var col := 0;
      while col < w
        invariant col % 2 == 0 && col <= w
        invariant BlocksUpTo(blocks, grid, row / 2, col / 2)
        decreases w - col
      {
        var items := [Get(grid, row, col).value, Get(grid, row, col + 1).value,
                      Get(grid, row + 1, col).value, Get(grid, row + 1, col + 1).value];
        var block := FromRowMajor(items, 2);
        BlockItems(grid, row, col);
        BlockifyStep(blocks, grid, row / 2, col / 2);
        blocks := Put(blocks, row / 2, col / 2, block).value;
        col := col + 2;
      }
      row := row + 2;
    }
  }

  /** Cell (r, c) has been written once the walk is past it: rows of blocks before `row`,
      then blocks before `col` in that row, then within the block the cells before (i, j)
      in row-major order. */
  predicate Written(r: nat, c: nat, row: nat, col: nat, i: nat, j: nat)
  {
    r / 2 < row ||
    (r / 2 == row && (c / 2 < col || (c / 2 == col && (r % 2 < i || (r % 2 == i && c % 2 < j)))))
  }

  /** `deblocked` has the flattened shape, and every cell the walk has passed holds its
      block's value. */
  ghost predicate CopiedUpTo<T>(deblocked: Array2<T>, grid: Array2<Array2<T>>,
                          row: nat, col: nat, i: nat, j: nat)
    requires Blocked(grid)
  {
    Valid(deblocked) && deblocked.width == 2 * grid.width && deblocked.height == 2 * grid.height &&
    forall r, c :: 0 <= r < 2 * grid.height && 0 <= c < 2 * grid.width && Written(r, c, row, col, i, j) ==>
      deblocked.rows[r][c] == grid.rows[r / 2][c / 2].rows[r % 2][c % 2]
  }

  /** Copying cell (i, j) of block (row, col) extends the copied part by one cell. */
  lemma DeblockifyStep<T>(deblocked: Array2<T>, grid: Array2<Array2<T>>,
                          row: nat, col: nat, i: nat, j: nat)
    requires Blocked(grid) && row < grid.height && col < grid.width && i < 2 && j < 2
    requires CopiedUpTo(deblocked, grid, row, col, i, j)
    ensures var item := grid.rows[row][col].rows[i][j];
      Put(deblocked, row * 2 + i, col * 2 + j, item).Some? &&
      CopiedUpTo(Put(deblocked, row * 2 + i, col * 2 + j, item).value, grid, row, col, i, j + 1)
  {
    var item := grid.rows[row][col].rows[i][j];
    var d := Put(deblocked, row * 2 + i, col * 2 + j, item).value;
    forall r, c | 0 <= r < 2 * grid.height && 0 <= c < 2 * grid.width && Written(r, c, row, col, i, j + 1)
      ensures d.rows[r][c] == grid.rows[r / 2][c / 2].rows[r % 2][c % 2]
    {
      if (r, c) != (row * 2 + i, col * 2 + j) {
        assert Written(r, c, row, col, i, j);
      }
    }
  }

  /** `deblockify`: fills a default grid of twice the size, copying each block's four
      cells in place. */
  method Deblockify<T>(grid: Array2<Array2<T>>, defaultValue: T) returns (deblocked: Array2<T>)
    requires Blocked(grid)
    ensures SameCells(deblocked, Deblockified(grid))
  {
    var w, h := grid.width, grid.height;
    deblocked := FromSingleValue(defaultValue, w * 2, h * 2);
    for row := 0 to h
      invariant CopiedUpTo(deblocked, grid, row, 0, 0, 0)
    {
      for col := 0 to w
        invariant CopiedUpTo(deblocked, grid, row, col, 0, 0)
      {
        for i := 0 to 2
          invariant CopiedUpTo(deblocked, grid, row, col, i, 0)
        {
          for j := 0 to 2
            invariant CopiedUpTo(deblocked, grid, row, col, i, j)
          {
            var item := Get(Get(grid, row, col).value, i, j).value;
            DeblockifyStep(deblocked, grid, row, col, i, j);
            deblocked := Put(deblocked, row * 2 + i, col * 2 + j, item).value;
          }
        }
      }
    }
  }

  /** Every block of `blockify` is 2 x 2, so its result can be deblockified. */
  lemma BlockifiedBlocked<T>(a: Array2<T>)
    requires Valid(a) && a.width % 2 == 0 && a.height % 2 == 0
    ensures Blocked(Blockified(a))
  {
    forall i, j | 0 <= i < a.height / 2 && 0 <= j < a.width / 2
      ensures Valid(Block(a, i, j)) && Block(a, i, j).width >= 2 && Block(a, i, j).height >= 2
    {
      BlockCells(a, i, j);
    }
  }

  /** Deblockifying the blocks of an even-sized grid gives back the same grid, every value
      in its original place. */
  lemma DeblockifyBlockify<T>(a: Array2<T>)
    requires Valid(a) && a.width % 2 == 0 && a.height % 2 == 0
    ensures Blocked(Blockified(a))
    ensures SameCells(Deblockified(Blockified(a)), a)
  {
    BlockifiedBlocked(a);
    var b := Blockified(a);
    var d := Deblockified(b);
    forall r, c | 0 <= r < a.height && 0 <= c < a.width
      ensures d.rows[r][c] == a.rows[r][c]
    {
      DeblockifiedAt(b, r, c);
      BlockifiedAt(a, r / 2, c / 2);
      assert 2 * (r / 2) + r % 2 == r && 2 * (c / 2) + c % 2 == c;
    }
  }

  /** Cell (r, c) of a deblockified grid, as its definition reads. */
  lemma DeblockifiedAt<T>(b: Array2<Array2<T>>, r: nat, c: nat)
    requires Blocked(b) && r < 2 * b.height && c < 2 * b.width
    ensures Deblockified(b).rows[r][c] == b.rows[r / 2][c / 2].rows[r % 2][c % 2]
  {
  }

  /** Block (i, j) of a blockified grid, as its definition reads. */
  lemma BlockifiedAt<T>(a: Array2<T>, i: nat, j: nat)
    requires Valid(a) && a.width % 2 == 0 && a.height % 2 == 0
    requires i < a.height / 2 && j < a.width / 2
    ensures Blockified(a).rows[i][j] == Block(a, i, j)
  {
  }

  /** Deblockify after blockify, run as the codec runs them, restores the grid. */
  method BlockRoundTrip<T>(a: Array2<T>, defaultValue: T) returns (d: Array2<T>)
    requires Valid(a) && a.width % 2 == 0 && a.height % 2 == 0
    ensures SameCells(d, a)
  {
    var blocks := Blockify(a, defaultValue);
    BlockifiedBlocked(a);
    assert Blocked(blocks) by {
      forall i, j | 0 <= i < blocks.height && 0 <= j < blocks.width
        ensures Valid(blocks.rows[i][j]) && blocks.rows[i][j].width >= 2 && blocks.rows[i][j].height >= 2
      {
        assert blocks.rows[i][j] == Blockified(a).rows[i][j];
      }
    }
    d := Deblockify(blocks, defaultValue);
    DeblockifyBlockify(a);
    forall r, c | 0 <= r < a.height && 0 <= c < a.width
      ensures d.rows[r][c] == a.rows[r][c]
    {
      assert blocks.rows[r / 2][c / 2] == Blockified(a).rows[r / 2][c / 2];
    }
  }
}
