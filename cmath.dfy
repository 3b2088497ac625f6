/** The rounding functions of the C math library, over exact reals.
    The model reads every `double` as a real number, so these are the
    idealised versions of std::floor, std::ceil, std::round and of the
    truncating double-to-integer conversion. */
module CMath {

  /** std::floor followed by a conversion to int: the largest integer not above x. */
  function Floor(x: real): (r: int)
    ensures r as real <= x < r as real + 1.0
  {
    x.Floor
  }

  /** std::ceil followed by a conversion to int: the least integer not below x. */
  function Ceil(x: real): (r: int)
    ensures x <= r as real < x + 1.0
  {
    -((-x).Floor)
  }

  /** std::round: the nearest integer, halfway cases rounded away from zero
      (so Round(-0.5) == -1, where the floor of x + 0.5 would give 0). */
  function Round(x: real): (r: int)
    ensures x - 0.5 <= r as real <= x + 0.5
    ensures r as real == x + 0.5 ==> x > 0.0
    ensures r as real == x - 0.5 ==> x < 0.0
  {
    if x >= 0.0 then (x + 0.5).Floor else -((-x + 0.5).Floor)
  }

  /** The implicit conversion of a double to an integer type: truncation toward zero. */
  function Truncate(x: real): (r: int)
    ensures x >= 0.0 ==> r as real <= x < r as real + 1.0
    ensures x < 0.0 ==> r as real - 1.0 < x <= r as real
  {
    if x >= 0.0 then x.Floor else -((-x).Floor)
  }

  function Min(x: int, y: int): int { if x <= y then x else y }

  function Max(x: int, y: int): int { if x >= y then x else y }

  /** A whole number is its own ceiling. */
  lemma CeilOfInteger(n: int)
    ensures Ceil(n as real) == n
  {
  }

  /** A whole number is its own rounding. */
  lemma RoundOfInteger(n: int)
    ensures Round(n as real) == n
  {
  }

  /** An integer in [x, x + 1) is the ceiling of x. */
  lemma CeilUnique(x: real, q: int)
    requires x <= q as real < x + 1.0
    ensures Ceil(x) == q
  {
  }

  /** (n + d - 1) / d is the least multiple count of d that reaches n. */
  lemma QuotientBounds(n: nat, d: nat)
    requires d >= 1
    ensures ((n + d - 1) / d) * d >= n && ((n + d - 1) / d - 1) * d < n
  {
    var q, r := (n + d - 1) / d, (n + d - 1) % d;
    assert q * d + r == n + d - 1 && 0 <= r < d;
    assert (q - 1) * d == q * d - d;
  }

  /** Scaling by a non-negative factor keeps an order. */
  lemma ScaleOrdered(x: real, y: real, k: real)
    requires x <= y && k >= 0.0
    ensures x * k <= y * k
  {
    assert y * k - x * k == (y - x) * k;
  }

  /** Scaling by a positive factor keeps a strict order. */
  lemma ScaleStrict(x: real, y: real, k: real)
    requires x < y && k > 0.0
    ensures x * k < y * k
  {
    assert y * k - x * k == (y - x) * k;
  }

  /** Bounds on a dividend give bounds on the quotient. */
  lemma QuotientBetween(n: real, d: real, lo: real, hi: real)
    requires d > 0.0 && lo * d < n && n <= hi * d
    ensures lo < n / d <= hi
  {
    var x := n / d;
    assert x * d == n;
    if x <= lo {
      ScaleOrdered(x, lo, d);
    }
    if x > hi {
      ScaleStrict(hi, x, d);
    }
  }

  /** The ceiling of a quotient of naturals, as the integer expression it equals. */
  lemma CeilOfQuotient(n: nat, d: nat)
    requires d >= 1
    ensures Ceil(n as real / d as real) == (n + d - 1) / d
  {
    var q := (n + d - 1) / d;
    QuotientBounds(n, d);
    assert (q as real) * (d as real) == (q * d) as real;
    assert ((q - 1) as real) * (d as real) == ((q - 1) * d) as real;
    QuotientBetween(n as real, d as real, (q - 1) as real, q as real);
    CeilUnique(n as real / d as real, q);
  }
}
