/** The sudoku board checker: a 9 x 9 board is accepted when each row, each column and each
    of the nine 3 x 3 squares passes the nine-values test. */
module Sudoku {
  import opened Words
  import opened Array2

  type Board = Array2<u16>

  /** The board shape `main` insists on before checking. */
  predicate IsBoard(board: Board)
  {
    Valid(board) && board.width == 9 && board.height == 9
  }

  // ---------------------------------------------------------------------------------
  // Sorting and deduplicating nine values

  predicate Sorted(s: seq<u16>)
  {
    forall i, j :: 0 <= i < j < |s| ==> s[i] <= s[j]
  }

  predicate StrictlyIncreasing(s: seq<u16>)
  {
    forall i, j :: 0 <= i < j < |s| ==> s[i] < s[j]
  }

  /** Places x before the first element of a sorted sequence that is not below it. */
  function Insert(x: u16, s: seq<u16>): (r: seq<u16>)
    ensures |r| == |s| + 1
  {
    if s == [] || x <= s[0] then [x] + s else [s[0]] + Insert(x, s[1..])
  }

  /** `values.sort()`: insertion sort. */
  function Sort(s: seq<u16>): (r: seq<u16>)
    ensures |r| == |s|
  {
    if s == [] then [] else Insert(s[0], Sort(s[1..]))
  }

  /** `values.dedup()`: drops every value equal to the one before it. */
  function Dedup(s: seq<u16>): (r: seq<u16>)
    ensures |r| <= |s|
  {
    if |s| <= 1 then s
    else if s[0] == s[1] then Dedup(s[1..])
    else [s[0]] + Dedup(s[1..])
  }

  function Sum(s: seq<u16>): int
  {
    if s == [] then 0 else s[0] + Sum(s[1..])
  }

  /** `set_of_nine_values_valid`: after sorting and deduplicating, nine values remain and
      they add up to 45. */
  function SetOfNineValuesValid(values: seq<u16>): (ok: bool)
    ensures ok ==> |values| >= 9
  {
    var d := Dedup(Sort(values));
    |d| == 9 && Sum(d) == 45
  }

  /** Inserting keeps every value and adds x. */
  lemma {:induction false} InsertMultiset(x: u16, s: seq<u16>)
    ensures multiset(Insert(x, s)) == multiset(s) + multiset{x}
  {
    if s != [] && x > s[0] {
      InsertMultiset(x, s[1..]);
      assert s == [s[0]] + s[1..];
    }
  }

  /** A lower bound of x and of every value of s bounds the result of inserting. */
  lemma {:induction false} InsertBounded(x: u16, s: seq<u16>, lo: int)
    requires lo <= x && forall k :: 0 <= k < |s| ==> lo <= s[k]
    ensures forall k :: 0 <= k < |Insert(x, s)| ==> lo <= Insert(x, s)[k]
  {
    if s != [] && x > s[0] {
      InsertBounded(x, s[1..], lo);
    }
  }

  /** Inserting into a sorted sequence keeps it sorted. */
  lemma {:induction false} InsertSorted(x: u16, s: seq<u16>)
    requires Sorted(s)
    ensures Sorted(Insert(x, s))
  {
    if s != [] && x > s[0] {
      InsertSorted(x, s[1..]);
      InsertBounded(x, s[1..], s[0]);
    }
  }

  /** Sorting yields a sorted rearrangement of the values. */
  lemma {:induction false} SortSorted(s: seq<u16>)
    ensures Sorted(Sort(s)) && multiset(Sort(s)) == multiset(s)
  {
    if s != [] {
      SortSorted(s[1..]);
      InsertSorted(s[0], Sort(s[1..]));
      InsertMultiset(s[0], Sort(s[1..]));
      assert s == [s[0]] + s[1..];
    }
  }

  /** The first value of a sorted sequence is its least. */
  lemma SortedFirst(a: seq<u16>, x: u16)
    requires Sorted(a) && x in multiset(a)
    ensures a[0] <= x
  {
    var i :| 0 <= i < |a| && a[i] == x;
  }

  /** Dropping the first value removes one occurrence of it. */
  lemma TailMultiset(a: seq<u16>)
    requires a != []
    ensures multiset(a[1..]) == multiset(a) - multiset{a[0]}
  {
    assert a == [a[0]] + a[1..];
  }

  /** Two sorted rearrangements of the same values agree on their first value, and what
      follows it is again two sorted rearrangements of the same values. */
  lemma SortedHeads(a: seq<u16>, b: seq<u16>)
    requires a != [] && Sorted(a) && Sorted(b) && multiset(a) == multiset(b)
    ensures b != [] && a[0] == b[0]
    ensures Sorted(a[1..]) && Sorted(b[1..]) && multiset(a[1..]) == multiset(b[1..])
  {
    assert |b| == |a| by {
      assert |multiset(b)| == |multiset(a)|;
    }
    assert b[0] in multiset(a) by {
      assert b[0] in multiset(b);
    }
    SortedFirst(a, b[0]);
    assert a[0] in multiset(b) by {
      assert a[0] in multiset(a);
    }
    SortedFirst(b, a[0]);
    TailMultiset(a);
    TailMultiset(b);
  }

  /** Two sorted rearrangements of the same values are equal. */
  lemma {:induction false} SortedUnique(a: seq<u16>, b: seq<u16>)
    requires Sorted(a) && Sorted(b) && multiset(a) == multiset(b)
    ensures a == b
  {
    if a == [] {
      assert |multiset(b)| == 0;
    } else {
      SortedHeads(a, b);
      SortedUnique(a[1..], b[1..]);
      assert a == [a[0]] + a[1..] && b == [b[0]] + b[1..];
    }
  }

  /** Deduplicating keeps the first value of a non-empty sequence. */
  lemma {:induction false} DedupFirst(s: seq<u16>)
    requires s != []
    ensures Dedup(s) != [] && Dedup(s)[0] == s[0]
  {
    if |s| > 1 && s[0] == s[1] {
      DedupFirst(s[1..]);
    }
  }

  /** Deduplicating only keeps values the sequence had. */
  lemma {:induction false} DedupMembers(s: seq<u16>)
    ensures forall k :: 0 <= k < |Dedup(s)| ==> Dedup(s)[k] in s
  {
    if |s| > 1 {
      DedupMembers(s[1..]);
    }
  }

  /** Deduplicating a sorted sequence leaves it strictly increasing. */
  lemma {:induction false} DedupStrict(s: seq<u16>)
    requires Sorted(s)
    ensures StrictlyIncreasing(Dedup(s))
  {
    if |s| > 1 {
      DedupStrict(s[1..]);
      var rest := Dedup(s[1..]);
      DedupFirst(s[1..]);
      if s[0] != s[1] {
        assert forall k :: 0 <= k < |rest| ==> s[0] < rest[k] by {
          forall k | 0 <= k < |rest|
            ensures s[0] < rest[k]
          {
            if k > 0 {
              assert rest[0] < rest[k];
            }
          }
        }
      }
    }
  }

  /** Deduplicating removes nothing exactly when no value equals the one before it. */
  lemma {:induction false} DedupKeepsLength(s: seq<u16>)
    ensures |Dedup(s)| == |s| <==> forall k :: 0 < k < |s| ==> s[k] != s[k - 1]
  {
    if |s| > 1 {
      var t := s[1..];
      DedupKeepsLength(t);
      if s[0] == s[1] {
        assert |Dedup(s)| < |s|;
      } else {
        assert (forall k :: 0 < k < |t| ==> t[k] != t[k - 1]) <==>
               (forall k :: 0 < k < |s| ==> s[k] != s[k - 1]) by {
          if forall k :: 0 < k < |t| ==> t[k] != t[k - 1] {
            forall k | 0 < k < |s| ensures s[k] != s[k - 1] {
              if k > 1 { assert s[k] == t[k - 1] && s[k - 1] == t[k - 2]; }
            }
          }
          if forall k :: 0 < k < |s| ==> s[k] != s[k - 1] {
            forall k | 0 < k < |t| ensures t[k] != t[k - 1] {
              assert t[k] == s[k + 1] && t[k - 1] == s[k];
            }
          }
        }
      }
    }
  }

  /** A deduplication that keeps the length returns the sequence unchanged. */
  lemma {:induction false} DedupKeepsAll(s: seq<u16>)
    requires |Dedup(s)| == |s|
    ensures Dedup(s) == s
  {
    if |s| > 1 && s[0] != s[1] {
      DedupKeepsAll(s[1..]);
    }
  }

  /** In a strictly increasing sequence values grow at least as fast as positions. */
  lemma {:induction false} StrictGap(d: seq<u16>, i: nat, j: nat)
    requires StrictlyIncreasing(d) && i <= j < |d|
    ensures d[j] - d[i] >= j - i
  {
    if i < j {
      StrictGap(d, i, j - 1);
      assert d[j - 1] < d[j];
    }
  }

  /** 1 + 2 + ... : the sum of `start + 1`, ..., `start + n`. */
  function Staircase(start: nat, n: nat): nat
    decreases n
  {
    if n == 0 then 0 else start + 1 + Staircase(start + 1, n - 1)
  }

  /** A sequence bounded by the staircase sums to at most the staircase's total, and to
      exactly it only when every bound is met. */
  lemma {:induction false} SumBelowStaircase(d: seq<u16>, start: nat)
    requires forall i :: 0 <= i < |d| ==> d[i] <= start + i + 1
    ensures Sum(d) <= Staircase(start, |d|)
    ensures Sum(d) == Staircase(start, |d|) ==> forall i :: 0 <= i < |d| ==> d[i] == start + i + 1
  {
    if d != [] {
      var rest := d[1..];
      assert forall i :: 0 <= i < |rest| ==> rest[i] <= (start + 1) + i + 1 by {
        forall i | 0 <= i < |rest|
          ensures rest[i] <= (start + 1) + i + 1
        {
          assert rest[i] == d[i + 1];
        }
      }
      SumBelowStaircase(rest, start + 1);
      if Sum(d) == Staircase(start, |d|) {
        forall i | 0 <= i < |d|
          ensures d[i] == start + i + 1
        {
          if i > 0 {
            assert d[i] == rest[i - 1];
          }
        }
      }
    }
  }

  const ONE_TO_NINE: seq<u16> := [1, 2, 3, 4, 5, 6, 7, 8, 9]

  /** Nine strictly increasing values no greater than 9 that sum to 45 are 1, ..., 9. */
  lemma NineDistinctDigits(d: seq<u16>)
    requires StrictlyIncreasing(d) && |d| == 9 && Sum(d) == 45
    requires forall k :: 0 <= k < 9 ==> d[k] <= 9
    ensures d == ONE_TO_NINE
  {
    forall i | 0 <= i < 9
      ensures d[i] <= i + 1
    {
      StrictGap(d, i, 8);
    }
    assert Staircase(0, 9) == 45;
    SumBelowStaircase(d, 0);
  }

  /** Deduplicating a strictly increasing sequence changes nothing. */
  lemma {:induction false} DedupStrictlyIncreasing(s: seq<u16>)
    requires StrictlyIncreasing(s)
    ensures Dedup(s) == s
  {
    if |s| > 1 {
      assert s[0] < s[1];
      DedupStrictlyIncreasing(s[1..]);
    }
  }

  /** 1, ..., 9 is strictly increasing and adds up to 45. */
  lemma OneToNineFacts()
    ensures StrictlyIncreasing(ONE_TO_NINE) && Sorted(ONE_TO_NINE) && Sum(ONE_TO_NINE) == 45
  {
    assert forall i :: 0 <= i < 9 ==> ONE_TO_NINE[i] as int == i + 1;
    assert Sum(ONE_TO_NINE[8..]) == 9;
    assert Sum(ONE_TO_NINE[7..]) == 17;
    assert Sum(ONE_TO_NINE[6..]) == 24;
    assert Sum(ONE_TO_NINE[5..]) == 30;
    assert Sum(ONE_TO_NINE[4..]) == 35;
    assert Sum(ONE_TO_NINE[3..]) == 39;
    assert Sum(ONE_TO_NINE[2..]) == 42;
    assert Sum(ONE_TO_NINE[1..]) == 44;
  }

  /** One direction: nine values no greater than 9 that pass the check are 1, ..., 9 in
      some order. */
  lemma NineValuesValidIsPermutation(values: seq<u16>)
    requires |values| == 9 && forall k :: 0 <= k < 9 ==> values[k] <= 9
    requires SetOfNineValuesValid(values)
    ensures multiset(values) == multiset(ONE_TO_NINE)
  {
    var sorted := Sort(values);
    SortSorted(values);
    var d := Dedup(sorted);
    DedupStrict(sorted);
    DedupMembers(sorted);
    forall k | 0 <= k < 9
      ensures d[k] <= 9
    {
      assert d[k] in multiset(values);
    }
    NineDistinctDigits(d);
    DedupKeepsAll(sorted);
  }

  /** The other direction: 1, ..., 9 in any order passes the check. */
  lemma PermutationIsNineValuesValid(values: seq<u16>)
    requires multiset(values) == multiset(ONE_TO_NINE)
    ensures SetOfNineValuesValid(values)
  {
    SortSorted(values);
    OneToNineFacts();
    SortedUnique(Sort(values), ONE_TO_NINE);
    DedupStrictlyIncreasing(ONE_TO_NINE);
  }

  /** For nine values from 0 to 9, as a board whose maximum value is 9 holds, the check
      passes exactly when the values are 1, ..., 9 in some order. */
  lemma NineValuesPermutation(values: seq<u16>)
    requires |values| == 9 && forall k :: 0 <= k < 9 ==> values[k] <= 9
    ensures SetOfNineValuesValid(values) <==> multiset(values) == multiset(ONE_TO_NINE)
  {
    if SetOfNineValuesValid(values) {
      NineValuesValidIsPermutation(values);
    }
    if multiset(values) == multiset(ONE_TO_NINE) {
      PermutationIsNineValuesValid(values);
    }
  }

  // ---------------------------------------------------------------------------------
  // Rows, columns and squares

  /** Row r of the board, left to right. */
  function RowValues(board: Board, r: nat): (s: seq<u16>)
    requires IsBoard(board) && r < 9
    ensures |s| == 9
  {
    seq(9, c requires 0 <= c < 9 => board.rows[r][c])
  }

  /** Column c of the board, top to bottom. */
  function ColumnValues(board: Board, c: nat): (s: seq<u16>)
    requires IsBoard(board) && c < 9
    ensures |s| == 9
  {
    seq(9, r requires 0 <= r < 9 => board.rows[r][c])
  }

  /** The k-th 3 x 3 square, its corners at multiples of 3 taken row by row, read row by
      row. */
  function SquareValues(board: Board, k: nat): (s: seq<u16>)
    requires IsBoard(board) && k < 9
    ensures |s| == 9
  {
    seq(9, t requires 0 <= t < 9 => board.rows[3 * (k / 3) + t / 3][3 * (k % 3) + t % 3])
  }

  /** The chunks of nine of the board's row-major walk are its rows. */
  lemma RowChunks(board: Board)
    requires IsBoard(board)
    ensures |Chunks(RowMajor(board), 9)| == 9
    ensures forall r :: 0 <= r < 9 ==> Chunks(RowMajor(board), 9)[r] == RowValues(board, r)
  {
    var all := RowMajor(board);
    ChunksCount(all, 9, 9);
    forall r | 0 <= r < 9
      ensures Chunks(all, 9)[r] == RowValues(board, r)
    {
      ChunkAt(all, 9, r);
      RowSlice(board, r);
    }
  }

  /** Values 9r to 9r + 8 of the row-major walk are row r. */
  lemma RowSlice(board: Board, r: nat)
    requires IsBoard(board) && r < 9
    ensures |RowMajor(board)| == 81 && RowMajor(board)[r * 9..(r + 1) * 9] == RowValues(board, r)
  {
    var all := RowMajor(board);
    forall c | 0 <= c < 9
      ensures all[r * 9..(r + 1) * 9][c] == RowValues(board, r)[c]
    {
      DivModUnique(r * 9 + c, 9, r, c);
    }
  }

  /** The chunks of nine of the board's column-major walk are its columns. */
  lemma ColumnChunks(board: Board)
    requires IsBoard(board)
    ensures |Chunks(ColMajor(board), 9)| == 9
    ensures forall c :: 0 <= c < 9 ==> Chunks(ColMajor(board), 9)[c] == ColumnValues(board, c)
  {
    var all := ColMajor(board);
    ChunksCount(all, 9, 9);
    forall c | 0 <= c < 9
      ensures Chunks(all, 9)[c] == ColumnValues(board, c)
    {
      ChunkAt(all, 9, c);
      ColumnSlice(board, c);
    }
  }

  /** Values 9c to 9c + 8 of the column-major walk are column c. */
  lemma ColumnSlice(board: Board, c: nat)
    requires IsBoard(board) && c < 9
    ensures |ColMajor(board)| == 81 && ColMajor(board)[c * 9..(c + 1) * 9] == ColumnValues(board, c)
  {
    var all := ColMajor(board);
    forall r | 0 <= r < 9
      ensures all[c * 9..(c + 1) * 9][r] == ColumnValues(board, c)[r]
    {
      DivModUnique(c * 9 + r, 9, c, r);
    }
  }

  /** `all_rows_valid`: the row-major walk cut into chunks of nine, each tested, stopping
      at the first failure. */
  method AllRowsValid(board: Board) returns (ok: bool)
    requires IsBoard(board)
    ensures ok <==> forall r :: 0 <= r < 9 ==> SetOfNineValuesValid(RowValues(board, r))
  {
    var all := CollectRowMajor(board);
    var rows := Chunks(all, 9);
    RowChunks(board);
    for i := 0 to |rows|
      invariant forall r :: 0 <= r < i ==> SetOfNineValuesValid(RowValues(board, r))
    {
      if !SetOfNineValuesValid(rows[i]) {
        return false;
      }
    }
    return true;
  }

  /** `all_columns_valid`: the same over the column-major walk. */
  method AllColumnsValid(board: Board) returns (ok: bool)
    requires IsBoard(board)
    ensures ok <==> forall c :: 0 <= c < 9 ==> SetOfNineValuesValid(ColumnValues(board, c))
  {
    var all := CollectColMajor(board);
    var columns := Chunks(all, 9);
    ColumnChunks(board);
    for i := 0 to |columns|
      invariant forall c :: 0 <= c < i ==> SetOfNineValuesValid(ColumnValues(board, c))
    {
      if !SetOfNineValuesValid(columns[i]) {
        return false;
      }
    }
    return true;
  }

  /** `all_squares_valid`: for each of the nine corners, gathers the square's values row by
      row and tests them, stopping at the first failure. */
  method AllSquaresValid(board: Board) returns (ok: bool)
    requires IsBoard(board)
    ensures ok <==> forall k :: 0 <= k < 9 ==> SetOfNineValuesValid(SquareValues(board, k))
  {
    var startCoordinates := [(0, 0), (0, 3), (0, 6), (3, 0), (3, 3), (3, 6), (6, 0), (6, 3), (6, 6)];
    for k := 0 to 9
      invariant forall k' :: 0 <= k' < k ==> SetOfNineValuesValid(SquareValues(board, k'))
    {
      var coordinate := startCoordinates[k];
      assert coordinate == (3 * (k / 3), 3 * (k % 3));
      ghost var square := SquareValues(board, k);
      var values: seq<u16> := [];
      for rowOffset := 0 to 3
        invariant values == square[..3 * rowOffset]
      {
        for columnOffset := 0 to 3
          invariant values == square[..3 * rowOffset + columnOffset]
        {
          SquareCell(board, k, rowOffset, columnOffset);
          var n := 3 * rowOffset + columnOffset;
          var v := Get(board, coordinate.0 + rowOffset, coordinate.1 + columnOffset).value;
          assert square[..n + 1] == square[..n] + [v];
          values := values + [v];
        }
      }
      assert square[..9] == square;
      assert values == SquareValues(board, k);
      if !SetOfNineValuesValid(values) {
        return false;
      }
    }
    return true;
  }

  /** Position 3 r + c of square k's walk is the cell at row offset r and column offset
      c from the square's corner. */
  lemma SquareCell(board: Board, k: nat, r: nat, c: nat)
    requires IsBoard(board) && k < 9 && r < 3 && c < 3
    ensures 3 * (k / 3) + r < 9 && 3 * (k % 3) + c < 9
    ensures SquareValues(board, k)[3 * r + c] == board.rows[3 * (k / 3) + r][3 * (k % 3) + c]
  {
    assert (3 * r + c) / 3 == r && (3 * r + c) % 3 == c;
  }

  /** Every row, column and square holds 1, ..., 9 in some order. */
  ghost predicate Solved(board: Board)
    requires IsBoard(board)
  {
    (forall r :: 0 <= r < 9 ==> multiset(RowValues(board, r)) == multiset(ONE_TO_NINE)) &&
    (forall c :: 0 <= c < 9 ==> multiset(ColumnValues(board, c)) == multiset(ONE_TO_NINE)) &&
    (forall k :: 0 <= k < 9 ==> multiset(SquareValues(board, k)) == multiset(ONE_TO_NINE))
  }

  /** Every row, column and square passes the check. */
  predicate AllValid(board: Board)
    requires IsBoard(board)
  {
    (forall r :: 0 <= r < 9 ==> SetOfNineValuesValid(RowValues(board, r))) &&
    (forall c :: 0 <= c < 9 ==> SetOfNineValuesValid(ColumnValues(board, c))) &&
    (forall k :: 0 <= k < 9 ==> SetOfNineValuesValid(SquareValues(board, k)))
  }

  /** No cell of the board exceeds 9. */
  predicate DigitsOnly(board: Board)
    requires IsBoard(board)
  {
    forall r, c :: 0 <= r < 9 && 0 <= c < 9 ==> board.rows[r][c] <= 9
  }

  /** On a board of digits every row passes the check exactly when every row is 1, ..., 9. */
  lemma RowsValidIsSolved(board: Board)
    requires IsBoard(board) && DigitsOnly(board)
    ensures (forall r :: 0 <= r < 9 ==> SetOfNineValuesValid(RowValues(board, r)))
        <==> (forall r :: 0 <= r < 9 ==> multiset(RowValues(board, r)) == multiset(ONE_TO_NINE))
  {
    forall r | 0 <= r < 9
      ensures SetOfNineValuesValid(RowValues(board, r)) <==> multiset(RowValues(board, r)) == multiset(ONE_TO_NINE)
    {
      RowDigits(board, r);
      NineValuesPermutation(RowValues(board, r));
    }
  }

  /** The same for the columns. */
  lemma ColumnsValidIsSolved(board: Board)
    requires IsBoard(board) && DigitsOnly(board)
    ensures (forall c :: 0 <= c < 9 ==> SetOfNineValuesValid(ColumnValues(board, c)))
        <==> (forall c :: 0 <= c < 9 ==> multiset(ColumnValues(board, c)) == multiset(ONE_TO_NINE))
  {
    forall c | 0 <= c < 9
      ensures SetOfNineValuesValid(ColumnValues(board, c)) <==> multiset(ColumnValues(board, c)) == multiset(ONE_TO_NINE)
    {
      ColumnDigits(board, c);
      NineValuesPermutation(ColumnValues(board, c));
    }
  }

  /** The same for the 3x3 squares. */
  lemma SquaresValidIsSolved(board: Board)
    requires IsBoard(board) && DigitsOnly(board)
    ensures (forall k :: 0 <= k < 9 ==> SetOfNineValuesValid(SquareValues(board, k)))
        <==> (forall k :: 0 <= k < 9 ==> multiset(SquareValues(board, k)) == multiset(ONE_TO_NINE))
  {
    forall k | 0 <= k < 9
      ensures SetOfNineValuesValid(SquareValues(board, k)) <==> multiset(SquareValues(board, k)) == multiset(ONE_TO_NINE)
    {
      SquareDigits(board, k);
      NineValuesPermutation(SquareValues(board, k));
    }
  }

  /** The cells of a row of a board of digits are digits. */
  lemma RowDigits(board: Board, r: nat)
    requires IsBoard(board) && DigitsOnly(board) && r < 9
    ensures forall t :: 0 <= t < 9 ==> RowValues(board, r)[t] <= 9
  {
    forall t | 0 <= t < 9
      ensures RowValues(board, r)[t] <= 9
    {
      assert RowValues(board, r)[t] == board.rows[r][t];
    }
  }

  /** The cells of a column of a board of digits are digits. */
  lemma ColumnDigits(board: Board, c: nat)
    requires IsBoard(board) && DigitsOnly(board) && c < 9
    ensures forall t :: 0 <= t < 9 ==> ColumnValues(board, c)[t] <= 9
  {
    forall t | 0 <= t < 9
      ensures ColumnValues(board, c)[t] <= 9
    {
      assert ColumnValues(board, c)[t] == board.rows[t][c];
    }
  }

  /** The cells of a square of a board of digits are digits. */
  lemma SquareDigits(board: Board, k: nat)
    requires IsBoard(board) && DigitsOnly(board) && k < 9
    ensures forall t :: 0 <= t < 9 ==> SquareValues(board, k)[t] <= 9
  {
    forall t | 0 <= t < 9
      ensures SquareValues(board, k)[t] <= 9
    {
      var r, c := 3 * (k / 3) + t / 3, 3 * (k % 3) + t % 3;
      assert r < 9 && c < 9;
      assert SquareValues(board, k)[t] == board.rows[r][c];
    }
  }

  /** On a board of digits the three checks pass exactly when the board is solved. */
  lemma AllValidIsSolved(board: Board)
    requires IsBoard(board) && DigitsOnly(board)
    ensures AllValid(board) <==> Solved(board)
  {
    RowsValidIsSolved(board);
    ColumnsValidIsSolved(board);
    SquaresValidIsSolved(board);
  }

  /** The decision `main` turns into its exit status: rows, then columns, then squares.
      On a board whose values are at most 9 it accepts exactly the solved boards. */
  method Accepts(board: Board) returns (accepted: bool)
    requires IsBoard(board)
    ensures accepted <==> AllValid(board)
    ensures DigitsOnly(board) ==> (accepted <==> Solved(board))
  {
    accepted := AllRowsValid(board);
    if accepted {
      accepted := AllColumnsValid(board);
    }
    if accepted {
      accepted := AllSquaresValid(board);
    }
    if DigitsOnly(board) {
      AllValidIsSolved(board);
    }
  }

  /** Values that miss one of the digits 1, ..., 9 are no rearrangement of them. */
  lemma MissingDigitNotPermutation(values: seq<u16>, digit: u16)
    requires 1 <= digit <= 9 && digit !in values
    ensures multiset(values) != multiset(ONE_TO_NINE)
  {
    assert ONE_TO_NINE[digit - 1] == digit;
    assert multiset(values)[digit] == 0;
    assert multiset(ONE_TO_NINE)[digit] > 0;
  }

  /** Nine values no greater than 9 that miss one of the digits 1, ..., 9 fail the check. */
  lemma MissingDigitFails(values: seq<u16>, digit: u16)
    requires |values| == 9 && forall k :: 0 <= k < 9 ==> values[k] <= 9
    requires 1 <= digit <= 9 && digit !in values
    ensures !SetOfNineValuesValid(values)
  {
    MissingDigitNotPermutation(values, digit);
    NineValuesPermutation(values);
  }
}
