/** Sums of integer sequences, taken from the front, as the C loops accumulate them. */
module Sums {

  /** The sum of a sequence of integers. */
  function Sum(s: seq<int>): int
  {
    if s == [] then 0 else Sum(s[..|s| - 1]) + s[|s| - 1]
  }
}
