/** Rounded area averages, and the exact division by a reciprocal (display.rs). */
module CoverageArithmetic {
  import opened Base

  /** Division by a multiplication with the reciprocal `(base - 1) / d` and one correction. */
  function CoverageQuotient(n: int, d: int, reciprocal: int, base: int): int
    requires base > 0
  {
    var estimate := n * reciprocal / base;
    estimate + if n - estimate * d >= d then 1 else 0
  }

  lemma FloorBounds(a: nat, b: nat)
    requires b > 0
    ensures a / b * b <= a < a / b * b + b
  {
  }

  lemma CancelLess(p: int, q: int, d: nat)
    requires p * d < q * d
    ensures p < q
  {
    if q <= p {
      MulMono(q, p, d);
    }
  }

  /** A quotient is the only `q` that leaves a remainder in [0, d). */
  lemma QuotientIs(a: int, d: nat, q: int)
    requires d > 0 && q * d <= a < q * d + d
    ensures a / d == q
  {
    var p := a / d;
    assert p * d <= a < p * d + d;
    OneMoreTime(p, d);
    OneMoreTime(q, d);
    CancelLess(p, q + 1, d);
    CancelLess(q, p + 1, d);
  }

  lemma Regroup(a: int, b: int, c: int)
    ensures a * b * c == a * (b * c) == a * c * b
  {
  }

  lemma ReciprocalBounds(d: nat, reciprocal: nat, base: nat)
    requires 0 < d < base && reciprocal == (base - 1) / d
    ensures base - d <= reciprocal * d <= base - 1
  {
    FloorBounds(base - 1, d);
  }

  lemma NotAbove(n: nat, d: nat, reciprocal: nat, base: nat, estimate: nat)
    requires 0 < d < base && reciprocal * d <= base - 1 && estimate * base <= n * reciprocal
    ensures estimate * d <= n
  {
    MulMono(estimate * base, n * reciprocal, d);
    MulMono(reciprocal * d, base, n);
    Regroup(estimate, base, d);
    Regroup(n, reciprocal, d);
    var e := estimate * d;
    assert e * base <= n * base;
    OneMoreTime(n, base);
    CancelLess(e, n + 1, base);
  }

  lemma Distribute(a: int, b: int, c: int)
    ensures (a + b) * c == a * c + b * c
  {
  }

  lemma ProductAbove(n: nat, d: nat, reciprocal: nat, base: nat, estimate: nat)
    requires d > 0 && n * reciprocal < estimate * base + base
    ensures n * (reciprocal * d) < (estimate * d + d) * base
  {
    OneMoreTime(estimate, base);
    MulMono(n * reciprocal + 1, (estimate + 1) * base, d);
    OneMoreTime(n * reciprocal, d);
    Regroup(estimate + 1, base, d);
    Regroup(n, reciprocal, d);
    OneMoreTime(estimate, d);
  }

  lemma NotFarBelow(n: nat, d: nat, reciprocal: nat, base: nat, estimate: nat)
    requires 0 < d < base && n < base && base - d <= reciprocal * d && n * reciprocal < estimate * base + base
    ensures n < estimate * d + 2 * d
  {
    var e, rd := estimate * d, reciprocal * d;
    ProductAbove(n, d, reciprocal, base, estimate);
    MulMono(base - d, rd, n);
    MulMono(n, base, d);
    Distribute(base - d, d, n);
    Distribute(e + d, d, base);
    CancelLess(n, e + 2 * d, base);
  }

  /** The estimate is the quotient or one below it. */
  lemma EstimateBounds(n: nat, d: nat, reciprocal: nat, base: nat)
    requires 0 < d < base && n < base && reciprocal == (base - 1) / d
    ensures var estimate := n * reciprocal / base; 0 <= n - estimate * d < 2 * d
  {
    var estimate := n * reciprocal / base;
    FloorBounds(n * reciprocal, base);
    ReciprocalBounds(d, reciprocal, base);
    NotAbove(n, d, reciprocal, base, estimate);
    NotFarBelow(n, d, reciprocal, base, estimate);
  }

  /** The fast division is exact for numerators below the base. */
  lemma QuotientIsExact(n: nat, d: nat, base: nat)
    requires 0 < d < base && n < base
    ensures CoverageQuotient(n, d, (base - 1) / d, base) == n / d
  {
    var reciprocal := (base - 1) / d;
    var estimate := n * reciprocal / base;
    EstimateBounds(n, d, reciprocal, base);
    OneMoreTime(estimate, d);
    if n - estimate * d >= d {
      QuotientIs(n, d, estimate + 1);
    } else {
      QuotientIs(n, d, estimate);
    }
  }

  /** Rounded division by the whole coverage. */
  function RoundedAverage(sum: nat, total: nat): nat
    requires total > 0
  {
    (sum + total / 2) / total
  }

  /** Scaling sum and coverage alike does not change the rounding. */
  lemma RoundingScales(sum: nat, total: nat, n: nat)
    requires total > 0 && n > 0
    ensures n * total > 0
    ensures RoundedAverage(n * sum, n * total) == RoundedAverage(sum, total)
  {
    assert n * total > 0;
    var q := RoundedAverage(sum, total);
    FloorBounds(sum + total / 2, total);
    var r := sum - q * total;
    assert -(total / 2) <= r < total - total / 2;
    assert n * sum == n * (q * total) + n * r;
    Regroup(q, n, total);
    Regroup(n, q, total);
    HalfBounds(r, total, n);
    QuotientIs(n * sum + n * total / 2, n * total, q);
  }

  lemma HalfBounds(r: int, total: nat, n: nat)
    requires n > 0 && -(total / 2) <= r < total - total / 2
    ensures 0 <= n * r + n * total / 2 < n * total
  {
    var t := n * total;
    assert -(total as int) <= 2 * r <= total - 1;
    MulMono(0 - total, 2 * r, n);
    MulMono(2 * r, total - 1, n);
    assert 2 * r * n == 2 * (n * r) && (0 - total) * n == -t && (total - 1) * n == t - n;
    assert -t <= 2 * (n * r) <= t - n;
  }

  /** The average of samples lies between the least and the greatest; equal samples are kept. */
  lemma AverageIsBetween(sum: nat, total: nat, lo: nat, hi: nat)
    requires total > 0 && lo * total <= sum <= hi * total
    ensures lo <= RoundedAverage(sum, total) <= hi
  {
    var q := RoundedAverage(sum, total);
    FloorBounds(sum + total / 2, total);
    OneMoreTime(q, total);
    OneMoreTime(hi, total);
    CancelLess(lo, q + 1, total);
    CancelLess(q, hi + 1, total);
  }
}
