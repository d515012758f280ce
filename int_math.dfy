/**
 * Integer helpers shared by both solvers.
 */
module IntMath {

  /** The larger of two integers (Math.max). */
  function Max(m: int, n: int): (r: int)
    ensures r >= m && r >= n
    ensures r == m || r == n
  {
    if m < n then n else m
  }
}
