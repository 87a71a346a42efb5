/** The smaller and the larger of two numbers. */
module Extrema {
  function Min(a: int, b: int): int
  {
    if a < b then a else b
  }

  function Max(a: int, b: int): int
  {
    if a < b then b else a
  }
}
