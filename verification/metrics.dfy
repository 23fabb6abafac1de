/**
 * The per-frame burst metric is a Java `double`. Its only non-finite value
 * the detector can produce is NaN (0.0 divided by an empty result count), so
 * a metric is either a finite real or NaN. Floating-point rounding and the
 * signed zero -0.0 are not modelled: finite values are exact reals.
 */
module Metrics {

  datatype Metric = Finite(value: real) | NaN

  /**
   * `Double.compareTo`: the usual order on finite values, NaN equal to itself
   * and greater than every finite value.
   */
  function CompareTo(a: Metric, b: Metric): (c: int)
    ensures c in {-1, 0, 1}
    ensures c == 0 <==> a == b
    ensures a.NaN? && b.Finite? ==> c == 1
    ensures a.Finite? && b.Finite? ==> (c > 0 <==> a.value > b.value)
  {
    match (a, b)
    case (NaN, NaN) => 0
    case (NaN, Finite(_)) => 1
    case (Finite(_), NaN) => -1
    case (Finite(x), Finite(y)) => if x < y then -1 else if x > y then 1 else 0
  }

  /**
   * A `double` sum divided by an `int` count. A zero count only ever meets a
   * zero sum here, and 0.0 / 0 is NaN; otherwise the quotient is exact.
   */
  function Divide(x: real, n: nat): (m: Metric)
    requires n > 0 || x == 0.0
    ensures n == 0 <==> m == NaN
    ensures n > 0 ==> m.Finite? && m.value * (n as real) == x
  {
    if n == 0 then NaN else Finite(x / (n as real))
  }

  /** `a.compareTo(b) > 0`, the replacement test of the burst scan. */
  predicate Greater(a: Metric, b: Metric) {
    CompareTo(a, b) > 0
  }

  /** `CompareTo` is antisymmetric, so `Greater` is a strict order. */
  lemma CompareToAntisymmetric(a: Metric, b: Metric)
    ensures CompareTo(a, b) == -CompareTo(b, a)
  {
  }

  /** `Greater` is transitive. */
  lemma GreaterTransitive(a: Metric, b: Metric, c: Metric)
    requires Greater(a, b) && Greater(b, c)
    ensures Greater(a, c)
  {
  }

  /** Two metrics are always comparable: `Greater` is a strict total order. */
  lemma GreaterTotal(a: Metric, b: Metric)
    ensures a == b || Greater(a, b) || Greater(b, a)
    ensures !(Greater(a, b) && Greater(b, a))
  {
  }
}
