/** Exact-real stand-ins for the few numeric primitives the scoring engine
    takes from pandas and numpy: nullable cells, `np.ceil`, `round(2)`,
    `abs`, `max`, `min`. Money and rates are `real`; day counts are `int`. */
module Numeric {

  /** A nullable numeric cell, as a pandas column holds it. `None` is a
      missing value (NaN after `pd.to_numeric(..., errors='coerce')`). */
  datatype Option<+T> = None | Some(value: T) {
    /** `fillna(default)` on one cell. */
    function GetOr(default: T): (r: T)
      ensures Some? ==> r == value
      ensures None? ==> r == default
    {
      match this
      case Some(v) => v
      case None => default
    }
  }

  function Abs(x: real): (r: real)
    ensures r >= 0.0
    ensures r == x || r == -x
  {
    if x < 0.0 then -x else x
  }

  function MaxR(a: real, b: real): (r: real)
    ensures r >= a && r >= b
    ensures r == a || r == b
  {
    if a >= b then a else b
  }

  function MinI(a: int, b: int): (r: int)
    ensures r <= a && r <= b
    ensures r == a || r == b
  {
    if a <= b then a else b
  }

  /** `np.ceil`: the least integer not below `x`. */
  function Ceil(x: real): (n: int)
    ensures x <= n as real < x + 1.0
  {
    -((-x).Floor)
  }

  /** For a positive shortfall `s` and a positive daily price `p`,
      `ceil(s / p)` is the least number of days whose revenue covers `s`. */
  lemma CeilDivIsLeastCover(s: real, p: real)
    requires s > 0.0 && p > 0.0
    ensures Ceil(s / p) >= 1
    ensures Ceil(s / p) as real * p >= s
    ensures (Ceil(s / p) - 1) as real * p < s
  {
    var q := s / p;
    var n := Ceil(q);
    assert q * p == s;
    assert q > 0.0;
    assert n as real >= q;
    MulMonotone(q, n as real, p);
    assert (n - 1) as real < q;
    MulStrictMonotone((n - 1) as real, q, p);
    assert (n - 1) as real * p < q * p;
    assert (n - 1) as real * p < s;
  }

  lemma MulMonotone(a: real, b: real, c: real)
    requires a <= b && c >= 0.0
    ensures a * c <= b * c
  {
  }

  lemma MulStrictMonotone(a: real, b: real, c: real)
    requires a < b && c > 0.0
    ensures a * c < b * c
  {
  }

  /** Values with at most two decimal places: what `round(2)` produces. */
  predicate IsCents(x: real)
  {
    (x * 100.0).Floor as real == x * 100.0
  }

  /** `round(2)` taken over exact reals, ties to the even cent as pandas
      does; the binary-double representation errors are not modelled. */
  function Round2(x: real): (r: real)
    ensures IsCents(r)
    ensures x - 0.005 <= r <= x + 0.005
  {
    var n := (x * 100.0).Floor;
    var f := x * 100.0 - n as real;
    var k := if f > 0.5 || (f == 0.5 && n % 2 != 0) then n + 1 else n;
    CentsOfInteger(k);
    ScaleBack(x, k);
    k as real / 100.0
  }

  lemma CentsOfInteger(k: int)
    ensures IsCents(k as real / 100.0)
  {
    assert (k as real / 100.0) * 100.0 == k as real;
  }

  lemma ScaleBack(x: real, k: int)
    requires x * 100.0 - 0.5 <= k as real <= x * 100.0 + 0.5
    ensures x - 0.005 <= k as real / 100.0 <= x + 0.005
  {
  }

  /** Rounding never reorders two values. */
  lemma Round2Monotone(x: real, y: real)
    requires x <= y
    ensures Round2(x) <= Round2(y)
  {
    var nx, ny := (x * 100.0).Floor, (y * 100.0).Floor;
    assert nx <= ny;
  }

  /** A value already on the cent grid is left alone. */
  lemma Round2Fixed(x: real)
    requires IsCents(x)
    ensures Round2(x) == x
  {
    var n := (x * 100.0).Floor;
    assert x * 100.0 - n as real == 0.0;
  }

  /** Rounding keeps a value inside any cent-grid interval around it. */
  lemma Round2Between(x: real, lo: real, hi: real)
    requires IsCents(lo) && IsCents(hi) && lo <= x <= hi
    ensures lo <= Round2(x) <= hi
  {
    Round2Monotone(lo, x);
    Round2Monotone(x, hi);
    Round2Fixed(lo);
    Round2Fixed(hi);
  }

  /** Multiplying the score back by its three divisors gives the
      numerator: a shortfall times the revenue still to gain. */
  lemma UndoQuotients(sh: real, t: real, dd: real, c: real, n: real)
    requires t != 0.0 && dd != 0.0 && n != 0.0
    ensures (sh / t) * (1.0 / dd) * c * (1.0 / n) * t * dd * n == sh * c
  {
    var a, b, d := sh / t, 1.0 / dd, 1.0 / n;
    assert a * t == sh && b * dd == 1.0 && d * n == 1.0;
    calc {
      a * b * c * d * t * dd * n;
      == (a * t) * (b * dd) * (d * n) * c;
      == sh * c;
    }
  }
}
