/** Arithmetic on reals that the standard library of the source provides. */
module Numbers {

  function Max(a: real, b: real): real {
    if a > b then a else b
  }

  function Clamp(x: real, low: real, high: real): real {
    if x < low then low else if x > high then high else x
  }
}
