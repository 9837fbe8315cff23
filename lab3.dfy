// The two functions of the testing lab: squaring an i16 into an i32, and the minimum of a
// non-empty vector.

module Lab3 {
  import opened Words

  datatype Option<T> = None | Some(value: T)

  /** i32 multiplication with Rust's overflow check: None where a debug build panics. */
  function CheckedMul(a: i32, b: i32): Option<i32>
  {
    var p := a * b;
    if -0x8000_0000 <= p < 0x8000_0000 then Some(p) else None
  }

  /** The square of an i16 lies between 0 and 2^30, well inside i32. */
  lemma SquareFits(x: i16)
    ensures 0 <= x * x <= 0x4000_0000
    ensures CheckedMul(x, x).Some?
  {
    var a: int := if x < 0 then 0 - x as int else x;
    assert a * a == x * x;
    MulLe(a, 0x8000, a);
    MulLe(a, 0x8000, 0x8000);
    assert 0 <= a * a;
  }

  /** `square`: widens x to i32 and multiplies; the multiplication never overflows, and the
      result is x squared, never negative. */
  function Square(x: i16): (r: i32)
    ensures r == x * x && 0 <= r <= 0x4000_0000
  {
    SquareFits(x);
    CheckedMul(x, x).value
  }

  /** The lab's own cases: 2, -3 and 10000. */
  lemma SquareTestVectors()
    ensures Square(2) == 4 && Square(-3) == 9 && Square(10000) == 10000 * 10000
  {
  }

  /** The left fold behind `Iterator::min`: keeps the running minimum `least`, replacing it
      only by a strictly smaller value, so the first of equal minima wins. */
  function MinFrom(least: int, rest: seq<int>): (m: int)
    ensures m == least || m in rest
    ensures m <= least && forall x :: x in rest ==> m <= x
    decreases |rest|
  {
    if rest == [] then least
    else
      assert rest == [rest[0]] + rest[1..];
      MinFrom(if rest[0] < least then rest[0] else least, rest[1..])
  }

  /** `find_minimum`: `min()` then `unwrap`, which panics on an empty vector. The result is an
      element of v no greater than any element of v. */
  function FindMinimum(v: seq<int>): (m: int)
    requires |v| > 0
    ensures m in v && forall x :: x in v ==> m <= x
  {
    assert v == [v[0]] + v[1..];
    MinFrom(v[0], v[1..])
  }

  /** The least element is the only value meeting that contract. */
  lemma FindMinimumUnique(v: seq<int>, m: int)
    requires m in v && forall x :: x in v ==> m <= x
    ensures |v| > 0 && FindMinimum(v) == m
  {
  }

  /** The lab's own cases, including a repeated minimum. */
  lemma FindMinimumTestVectors()
    ensures FindMinimum([-10, 0, 10, 20]) == -10
    ensures FindMinimum([100, 200, 15, 16, 15, 15, 15]) == 15
  {
    FindMinimumUnique([-10, 0, 10, 20], -10);
    FindMinimumUnique([100, 200, 15, 16, 15, 15, 15], 15);
  }
}
