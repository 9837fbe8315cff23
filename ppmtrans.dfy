/** `ppmtrans`: rotating, flipping and transposing an image held in an `Array2`, by moving
    every pixel to the position an index map gives it. */
module PpmTrans {
  import opened Words
  import opened Array2

  /** An RGB pixel; the channel type is the image crate's 16-bit sample. */
  datatype Rgb = Rgb(red: u16, green: u16, blue: u16)

  type ImageArray = Array2<Rgb>

  const BLANK_PIXEL: Rgb := Rgb(0, 0, 0)

  /** The index-mapping closures `rotate`, `flip` and `transpose` hand to `transform`. */
  datatype Mapping = Rotate90 | Rotate180 | Rotate270 | FlipHorizontal | FlipVertical | Transpose

  /** The mappings `transform` is asked to run with swapped dimensions. */
  predicate Swaps(m: Mapping)
  {
    m == Rotate90 || m == Rotate270 || m == Transpose
  }

  /** The output width and height for an input of `width` x `height`. */
  function OutWidth(m: Mapping, width: nat, height: nat): nat
  {
    if Swaps(m) then height else width
  }

  function OutHeight(m: Mapping, width: nat, height: nat): nat
  {
    if Swaps(m) then width else height
  }

  /** Where the closure sends input position (row, column); `width` and `height` are the
      input's, captured before the call. */
  function Forward(m: Mapping, width: nat, height: nat, row: nat, column: nat): (p: (nat, nat))
    requires row < height && column < width
    ensures p.0 < OutHeight(m, width, height) && p.1 < OutWidth(m, width, height)
  {
    match m
    case Rotate90 => (column, height - row - 1)
    case Rotate180 => (height - row - 1, width - column - 1)
    case Rotate270 => (width - column - 1, row)
    case FlipHorizontal => (row, width - column - 1)
    case FlipVertical => (height - row - 1, column)
    case Transpose => (column, row)
  }

  /** The input position whose pixel lands on output position (row, column). */
  function Backward(m: Mapping, width: nat, height: nat, row: nat, column: nat): (p: (nat, nat))
    requires row < OutHeight(m, width, height) && column < OutWidth(m, width, height)
    ensures p.0 < height && p.1 < width
  {
    match m
    case Rotate90 => (height - column - 1, row)
    case Rotate180 => (height - row - 1, width - column - 1)
    case Rotate270 => (column, width - row - 1)
    case FlipHorizontal => (row, width - column - 1)
    case FlipVertical => (height - row - 1, column)
    case Transpose => (column, row)
  }

  /** Each mapping is undone by its backward map on the input positions ... */
  lemma BackwardForward(m: Mapping, width: nat, height: nat, row: nat, column: nat)
    requires row < height && column < width
    ensures var p := Forward(m, width, height, row, column);
      Backward(m, width, height, p.0, p.1) == (row, column)
  {
  }

  /** ... and the backward map is undone by the mapping on the output positions, so each
      mapping is a bijection between the two. */
  lemma ForwardBackward(m: Mapping, width: nat, height: nat, row: nat, column: nat)
    requires row < OutHeight(m, width, height) && column < OutWidth(m, width, height)
    ensures var p := Backward(m, width, height, row, column);
      Forward(m, width, height, p.0, p.1) == (row, column)
  {
  }

  /** The image `transform` produces: each output cell holds the pixel that the mapping
      sends there. */
  function Transformed(image: ImageArray, m: Mapping): (out: ImageArray)
    requires Valid(image)
    ensures Valid(out)
    ensures out.width == OutWidth(m, image.width, image.height)
    ensures out.height == OutHeight(m, image.width, image.height)
  {
    var w, h := image.width, image.height;
    Array2(OutWidth(m, w, h), OutHeight(m, w, h),
      seq(OutHeight(m, w, h), r requires 0 <= r < OutHeight(m, w, h) =>
        seq(OutWidth(m, w, h), c requires 0 <= c < OutWidth(m, w, h) =>
          image.rows[Backward(m, w, h, r, c).0][Backward(m, w, h, r, c).1])))
  }

  /** Input position p comes before (row, column) in the walk: column by column when
      `byColumns`, row by row otherwise. */
  predicate Visited(byColumns: bool, p: (nat, nat), row: nat, column: nat)
  {
    if byColumns then p.1 < column || (p.1 == column && p.0 < row)
    else p.0 < row || (p.0 == row && p.1 < column)
  }

  /** `output` has the output's shape and every pixel visited so far is in place. */
  ghost predicate Placed(output: ImageArray, image: ImageArray, m: Mapping, byColumns: bool, row: nat, column: nat)
    requires Valid(image)
  {
    var w, h := image.width, image.height;
    Valid(output) && output.width == OutWidth(m, w, h) && output.height == OutHeight(m, w, h) &&
    forall r, c ::
      (0 <= r < output.height && 0 <= c < output.width && Visited(byColumns, Backward(m, w, h, r, c), row, column)) ==>
      output.rows[r][c] == image.rows[Backward(m, w, h, r, c).0][Backward(m, w, h, r, c).1]
  }

  /** Writing the pixel at (row, column) where the mapping sends it places one more
      pixel and disturbs none of the earlier ones. */
  lemma PlaceStep(output: ImageArray, image: ImageArray, m: Mapping, byColumns: bool, row: nat, column: nat)
    requires Valid(image) && row < image.height && column < image.width
    requires Placed(output, image, m, byColumns, row, column)
    ensures var t := Forward(m, image.width, image.height, row, column);
      Put(output, t.0, t.1, image.rows[row][column]).Some? &&
      Placed(Put(output, t.0, t.1, image.rows[row][column]).value, image, m, byColumns,
             if byColumns then row + 1 else row, if byColumns then column else column + 1)
  {
    var w, h := image.width, image.height;
    var t := Forward(m, w, h, row, column);
    var next := Put(output, t.0, t.1, image.rows[row][column]).value;
    BackwardForward(m, w, h, row, column);
    forall r, c | 0 <= r < next.height && 0 <= c < next.width &&
        Visited(byColumns, Backward(m, w, h, r, c), if byColumns then row + 1 else row, if byColumns then column else column + 1)
      ensures next.rows[r][c] == image.rows[Backward(m, w, h, r, c).0][Backward(m, w, h, r, c).1]
    {
      ForwardBackward(m, w, h, r, c);
    }
  }

  /** Finishing a column (or a row) of the walk is starting the next one. */
  lemma PlaceWrap(output: ImageArray, image: ImageArray, m: Mapping, byColumns: bool, row: nat, column: nat)
    requires Valid(image)
    requires byColumns ==> row == image.height
    requires !byColumns ==> column == image.width
    requires Placed(output, image, m, byColumns, row, column)
    ensures Placed(output, image, m, byColumns, if byColumns then 0 else row + 1, if byColumns then column + 1 else 0)
  {
  }

  /** Once the walk has passed every input position the output is the transformed image. */
  lemma PlaceDone(output: ImageArray, image: ImageArray, m: Mapping, byColumns: bool)
    requires Valid(image)
    requires Placed(output, image, m, byColumns, if byColumns then 0 else image.height, if byColumns then image.width else 0)
    ensures SameCells(output, Transformed(image, m))
  {
  }

  /** `transform`: writes every input pixel into a blank output at the position `f`
      gives, walking the input column by column or row by row.  The output's
      dimensions are swapped when `swap_dimensions` is set; the `unwrap` on `get_mut`
      needs that flag to match the mapping. */
  method Transform(image: ImageArray, m: Mapping, swapDimensions: bool, columnMajor: bool)
    returns (output: ImageArray)
    requires Valid(image) && swapDimensions == Swaps(m)
    ensures SameCells(output, Transformed(image, m))
  {
    var w, h := image.width, image.height;
    var newWidth, newHeight := if swapDimensions then h else w, if swapDimensions then w else h;
    output := FromSingleValue(BLANK_PIXEL, newWidth, newHeight);
    if columnMajor {
      for column := 0 to w
        invariant Placed(output, image, m, true, 0, column)
      {
        for row := 0 to h
          invariant Placed(output, image, m, true, row, column)
        {
          var target := Forward(m, w, h, row, column);
          var pixel := Get(image, row, column).value;
          PlaceStep(output, image, m, true, row, column);
          output := Put(output, target.0, target.1, pixel).value;
        }
        PlaceWrap(output, image, m, true, h, column);
      }
      PlaceDone(output, image, m, true);
    } else {
      for row := 0 to h
        invariant Placed(output, image, m, false, row, 0)
      {
        for column := 0 to w
          invariant Placed(output, image, m, false, row, column)
        {
          var target := Forward(m, w, h, row, column);
          var pixel := Get(image, row, column).value;
          PlaceStep(output, image, m, false, row, column);
          output := Put(output, target.0, target.1, pixel).value;
        }
        PlaceWrap(output, image, m, false, row, w);
      }
      PlaceDone(output, image, m, false);
    }
  }

  /** `rotate`: the angle must be a multiple of 90; it is taken modulo 360 and 0 gives
      the image back. */
  method Rotate(image: ImageArray, angle: u32, columnMajor: bool) returns (r: ImageArray)
    requires Valid(image) && angle % 90 == 0
    ensures angle % 360 == 0 ==> r == image
    ensures angle % 360 == 90 ==> SameCells(r, Transformed(image, Rotate90))
    ensures angle % 360 == 180 ==> SameCells(r, Transformed(image, Rotate180))
    ensures angle % 360 == 270 ==> SameCells(r, Transformed(image, Rotate270))
  {
    var adjustedAngle := angle % 360;
    if adjustedAngle == 0 {
      r := image;
    } else if adjustedAngle == 90 {
      r := Transform(image, Rotate90, true, columnMajor);
    } else if adjustedAngle == 180 {
      r := Transform(image, Rotate180, false, columnMajor);
    } else if adjustedAngle == 270 {
      r := Transform(image, Rotate270, true, columnMajor);
    } else {
      r := image;
    }
  }

  /** A multiple of 90 taken modulo 360 is one of the four handled angles, so the
      fall-through arm of `rotate` is never taken. */
  lemma RotationAngles(angle: nat)
    requires angle % 90 == 0
    ensures angle % 360 in {0, 90, 180, 270}
  {
    var q := angle / 360;
    var k := angle % 360;
    assert angle == 360 * q + k;
    assert k % 90 == 0 by {
      assert angle - k == 90 * (4 * q);
    }
  }

  /** `flip`: only "horizontal" and "vertical" are accepted. */
  method Flip(image: ImageArray, direction: string, columnMajor: bool) returns (r: ImageArray)
    requires Valid(image) && (direction == "horizontal" || direction == "vertical")
    ensures direction == "horizontal" ==> SameCells(r, Transformed(image, FlipHorizontal))
    ensures direction == "vertical" ==> SameCells(r, Transformed(image, FlipVertical))
  {
    if direction == "horizontal" {
      r := Transform(image, FlipHorizontal, false, columnMajor);
    } else {
      r := Transform(image, FlipVertical, false, columnMajor);
    }
  }

  /** `transpose`. */
  method TransposeImage(image: ImageArray, columnMajor: bool) returns (r: ImageArray)
    requires Valid(image)
    ensures SameCells(r, Transformed(image, Transpose))
  {
    r := Transform(image, Transpose, true, columnMajor);
  }

  /** The pixel at input (row, column) ends up where the mapping sends it; written out for
      each mapping, this is 90 degrees to (c, h - 1 - r), 180 to (h - 1 - r, w - 1 - c),
      270 to (w - 1 - c, r), a horizontal flip to (r, w - 1 - c), a vertical flip to
      (h - 1 - r, c) and a transpose to (c, r). */
  lemma TransformedMoves(image: ImageArray, m: Mapping, row: nat, column: nat)
    requires Valid(image) && row < image.height && column < image.width
    ensures var w, h := image.width, image.height;
      var out := Transformed(image, m);
      var (r, c) := match m
        case Rotate90 => (column, h - row - 1)
        case Rotate180 => (h - row - 1, w - column - 1)
        case Rotate270 => (w - column - 1, row)
        case FlipHorizontal => (row, w - column - 1)
        case FlipVertical => (h - row - 1, column)
        case Transpose => (column, row);
      r < out.height && c < out.width && out.rows[r][c] == image.rows[row][column]
  {
    BackwardForward(m, image.width, image.height, row, column);
    var p := Forward(m, image.width, image.height, row, column);
    assert Transformed(image, m).rows[p.0][p.1] == image.rows[row][column];
  }

  /** Rotating by 180 degrees, flipping either way and transposing each undo themselves. */
  lemma SelfInverse(image: ImageArray, m: Mapping)
    requires Valid(image) && m in {Rotate180, FlipHorizontal, FlipVertical, Transpose}
    ensures SameCells(Transformed(Transformed(image, m), m), image)
  {
  }

  /** A quarter turn one way is undone by a quarter turn the other way. */
  lemma QuarterTurnsCancel(image: ImageArray)
    requires Valid(image)
    ensures SameCells(Transformed(Transformed(image, Rotate90), Rotate270), image)
    ensures SameCells(Transformed(Transformed(image, Rotate270), Rotate90), image)
  {
  }

  /** Two quarter turns are a half turn. */
  lemma TwoQuarterTurns(image: ImageArray)
    requires Valid(image)
    ensures SameCells(Transformed(Transformed(image, Rotate90), Rotate90), Transformed(image, Rotate180))
  {
  }

  /** The walk order does not matter: both traversals give the same image. */
  method TraversalOrderIrrelevant(image: ImageArray, m: Mapping) returns (byRows: ImageArray, byColumns: ImageArray)
    requires Valid(image)
    ensures SameCells(byRows, byColumns)
  {
    byRows := Transform(image, m, Swaps(m), false);
    byColumns := Transform(image, m, Swaps(m), true);
  }
}
