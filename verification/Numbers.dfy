/** `Math.min` and `Math.max` of two coordinates. */
module Numbers {
  function Min(a: real, b: real): real { if a < b then a else b }

  function Max(a: real, b: real): real { if a > b then a else b }
}
