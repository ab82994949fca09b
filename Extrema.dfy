/**
 * The minimum and maximum the table-filling routines of
 * Features/src/Method.java take: `Math.max`, the maximum the specification
 * of the running `max` of `getLongestCommonSubstring` takes, and the
 * three-way minimum of `editDistance`.
 */
module Extrema {

  function Max(x: nat, y: nat): (r: nat)
    ensures r >= x && r >= y && (r == x || r == y)
  {
    if x >= y then x else y
  }

  function Min3(x: nat, y: nat, z: nat): (r: nat)
    ensures r <= x && r <= y && r <= z
    ensures r == x || r == y || r == z
  {
    if x <= y && x <= z then x else if y <= z then y else z
  }
}
