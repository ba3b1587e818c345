/** Small shared vocabulary: an optional value (JavaScript's `null`/`undefined`
    versus a present value) and minimum/maximum on integers and reals. */
module Prelude {

  datatype Option<+T> = None | Some(value: T)

  function Min(a: int, b: int): int
  {
    if a <= b then a else b
  }

  function Max(a: int, b: int): int
  {
    if a <= b then b else a
  }

  /** `Math.min` on two finite numbers. */
  function MinR(a: real, b: real): real
  {
    if a <= b then a else b
  }

  /** `Math.max` on two finite numbers. */
  function MaxR(a: real, b: real): real
  {
    if a <= b then b else a
  }
}
