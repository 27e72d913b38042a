/** Integers extended with the two infinities the search uses as the initial
    alpha/beta window and as the initial running best score. */
module ExtendedInt {

  datatype ExtInt = NegInf | Fin(n: int) | PosInf

  /** The order of the extended integers: -inf <= every value <= +inf. */
  predicate Le(x: ExtInt, y: ExtInt) {
    x.NegInf? || y.PosInf? || (x.Fin? && y.Fin? && x.n <= y.n)
  }

  predicate Lt(x: ExtInt, y: ExtInt) {
    !Le(y, x)
  }

  /** Python's `max(a, b)` on the window bounds. */
  function Max(x: ExtInt, y: ExtInt): (m: ExtInt)
    ensures Le(x, m) && Le(y, m)
    ensures m == x || m == y
  {
    if Le(x, y) then y else x
  }

  /** Python's `min(a, b)` on the window bounds. */
  function Min(x: ExtInt, y: ExtInt): (m: ExtInt)
    ensures Le(m, x) && Le(m, y)
    ensures m == x || m == y
  {
    if Le(x, y) then x else y
  }

  function IntMax(a: int, b: int): (m: int)
    ensures a <= m && b <= m
    ensures m == a || m == b
  {
    if a <= b then b else a
  }

  function IntMin(a: int, b: int): (m: int)
    ensures m <= a && m <= b
    ensures m == a || m == b
  {
    if a <= b then a else b
  }
}
