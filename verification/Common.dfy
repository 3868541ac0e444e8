/** Small shared vocabulary: an optional value and integer min/max,
    the two JavaScript building blocks (`null`-able values, `Math.min`,
    `Math.max`) that every component of the site uses. */
module Common {

  /** A value that may be absent (`null`, `undefined` or an element that
      `getElementById` did not find). */
  datatype Option<+T> = None | Some(value: T)

  /** `Math.min` on integers. */
  function Min(a: int, b: int): (m: int)
    ensures m <= a && m <= b
    ensures m == a || m == b
  {
    if a <= b then a else b
  }

  /** `Math.max` on integers. */
  function Max(a: int, b: int): (m: int)
    ensures m >= a && m >= b
    ensures m == a || m == b
  {
    if a >= b then a else b
  }
}
