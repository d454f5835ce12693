/** Facts about real division shared by the latency and tick conversions. */
module RealDivision {
  /** Dividing by a positive number keeps the order, strict or not. */
  lemma QuotientBelow(a: real, b: real, f: real)
    requires f > 0.0 && a <= b
    ensures a / f <= b / f
    ensures a < b ==> a / f < b / f
  {
  }
}
