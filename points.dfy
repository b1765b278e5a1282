/** Integer pixel geometry shared by the drawing, tracking and counting code. */
module Points {

  /** An (x, y) pixel position; x grows to the right, y grows downwards. */
  datatype Point = Point(x: int, y: int)

  /** `numpy.clip(v, lo, hi)`, i.e. `min(max(v, lo), hi)`: when lo > hi every value becomes hi. */
  function Clamp(v: int, lo: int, hi: int): (r: int)
    ensures lo <= hi ==> lo <= r <= hi
    ensures lo <= v <= hi ==> r == v
    ensures v < lo <= hi ==> r == lo
    ensures v > hi || lo > hi ==> r == hi
  {
    var m := if v < lo then lo else v;
    if m > hi then hi else m
  }
}
