/**
 * Statistic cells: a floating-point value of the kernels, taken as an exact
 * real, or the NaN sentinel every output buffer is filled with before any
 * cell is written.
 */
module Cells {

  /** `Undefined` stands for NaN. */
  datatype Cell = Undefined | Val(r: real)

  /** `x != 0.0` as the kernels test it: NaN differs from zero. */
  predicate DiffersFromZero(x: Cell) {
    x != Val(0.0)
  }

  function Add(x: Cell, y: Cell): Cell {
    if x.Val? && y.Val? then Val(x.r + y.r) else Undefined
  }

  function Sub(x: Cell, y: Cell): Cell {
    if x.Val? && y.Val? then Val(x.r - y.r) else Undefined
  }

  function Scale(k: real, x: Cell): Cell {
    if x.Val? then Val(k * x.r) else Undefined
  }

  /**
   * IEEE quotient on the operands where it is not infinite: a NaN operand or
   * 0/0 gives NaN. A nonzero value over zero (an infinity) is excluded by the
   * precondition; every caller proves that it cannot arise.
   */
  function Quot(x: Cell, y: Cell): Cell
    requires y == Val(0.0) ==> x == Val(0.0)
  {
    if x.Val? && y.Val? && y.r != 0.0 then Val(x.r / y.r) else Undefined
  }

  /** A nonnegative quotient of a part by its whole is a probability. */
  lemma RatioInUnit(part: real, whole: real)
    requires 0.0 <= part <= whole && whole != 0.0
    ensures 0.0 <= part / whole <= 1.0
  {
    var q := part / whole;
    assert q * whole == part;
  }

  /** A nonnegative number over a positive one: the quotient is nonnegative and undoes the division. */
  lemma QuotientOfNonNegatives(a: real, b: real)
    requires a >= 0.0 && b > 0.0
    ensures a / b >= 0.0 && (a / b) * b == a
  {
    var q := a / b;
    assert q * b == a;
  }
}
