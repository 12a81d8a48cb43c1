/** `FieldCoordinate`: a cell of the 3x3 board as (x, y), x the column and y
    the row, both 0..2, with the row-major index 3y + x. */
module Coordinates {
  import opened Bits
  import opened Wrappers
  import opened Errors

  datatype FieldCoordinate = FieldCoordinate(x: int, y: int)

  /** The check in the `init` block. */
  predicate Valid(c: FieldCoordinate)
  {
    0 <= c.x <= 2 && 0 <= c.y <= 2
  }

  /** The primary constructor: throws `IllegalArgumentException` (with no
      message, written "" here) unless both coordinates are in 0..2. */
  function FromXY(x: int, y: int): (r: Result<FieldCoordinate, Error>)
    ensures r.Success? <==> 0 <= x <= 2 && 0 <= y <= 2
    ensures r.Success? ==> r.value.x == x && r.value.y == y && Valid(r.value)
    ensures r.Failure? ==> r.error == IllegalArgument("")
  {
    var c := FieldCoordinate(x, y);
    if !Valid(c) then Failure(IllegalArgument("")) else Success(c)
  }

  /** Kotlin's `Int` division, which truncates towards zero. */
  function TruncDiv(a: int, b: int): (q: int)
    requires b > 0
    ensures a >= 0 ==> q == a / b
    ensures a < 0 ==> q <= 0 && b * q >= a > b * (q - 1)
  {
    if a >= 0 then a / b else -((-a) / b)
  }

  /** Kotlin's `%`, whose result takes the sign of the dividend. */
  function TruncRem(a: int, b: int): (r: int)
    requires b > 0
    ensures b * TruncDiv(a, b) + r == a
    ensures a >= 0 ==> 0 <= r < b
    ensures a < 0 ==> -b < r <= 0
  {
    a - b * TruncDiv(a, b)
  }

  /** The secondary constructor `FieldCoordinate(index)` = (index % 3,
      index / 3): valid exactly for the indices 0..8, every negative index
      being rejected by the range check. */
  function FromIndex(index: int32): (r: Result<FieldCoordinate, Error>)
    ensures r.Success? <==> 0 <= index <= 8
    ensures r.Success? ==> Valid(r.value) && ToIndex(r.value) == index
    ensures r.Failure? ==> r.error == IllegalArgument("")
  {
    FromXY(TruncRem(index, 3), TruncDiv(index, 3))
  }

  /** `toIndex()`: the row-major position 3y + x. */
  function ToIndex(c: FieldCoordinate): (i: int)
    requires Valid(c)
    ensures 0 <= i <= 8
    ensures i % 3 == c.x && i / 3 == c.y
  {
    3 * c.y + c.x
  }

  /** Distinct cells have distinct indices. */
  lemma ToIndexInjective(a: FieldCoordinate, b: FieldCoordinate)
    requires Valid(a) && Valid(b)
    ensures ToIndex(a) == ToIndex(b) <==> a == b
  {
  }

  /** Round trip: a coordinate rebuilt from its index is the same coordinate. */
  lemma FromIndexToIndex(c: FieldCoordinate)
    requires Valid(c)
    ensures FromIndex(ToIndex(c)) == Success(c)
  {
  }

  /** `FieldCoordinate(7)` is (1, 2); 9 and -1 are rejected. */
  lemma FromIndexVectors()
    ensures FromIndex(7) == Success(FieldCoordinate(1, 2))
    ensures FromIndex(9).Failure? && FromIndex(-1).Failure?
  {
  }
}
