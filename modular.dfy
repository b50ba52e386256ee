/**
 * Facts about the remainder of Euclidean division by a positive modulus.
 * For a positive divisor Dafny's `%` agrees with Python's `%`: the remainder
 * lies in `[0, m)` even for a negative dividend.
 */
module Modular {

  /** `a` and `b` leave the same remainder modulo `m`. */
  ghost predicate Congruent(a: int, b: int, m: int)
    requires m > 0
  {
    a % m == b % m
  }

  /** A non-zero multiple of `m` is at least `m` away from zero. */
  lemma MultipleAwayFromZero(a: int, m: int)
    requires m > 0
    ensures a == 0 || a * m >= m || a * m <= -m
  {
    if a > 0 {
      assert a * m == m + (a - 1) * m;
    } else if a < 0 {
      assert a * m == -m - (-a - 1) * m;
    }
  }

  /** Quotient and remainder are unique. */
  lemma ModUnique(x: int, q: int, r: int, m: int)
    requires m > 0 && 0 <= r < m && x == q * m + r
    ensures x % m == r
  {
    var q0, r0 := x / m, x % m;
    assert x == q0 * m + r0;
    assert (q - q0) * m == r0 - r;
    MultipleAwayFromZero(q - q0, m);
  }

  /** Adding a multiple of `m` leaves the remainder unchanged. */
  lemma ModAddMultiple(x: int, k: int, m: int)
    requires m > 0
    ensures (x + k * m) % m == x % m
  {
    var q0 := x / m;
    assert x + k * m == (q0 + k) * m + x % m;
    ModUnique(x + k * m, q0 + k, x % m, m);
  }

  /** A number is congruent to its own remainder. */
  lemma ModCongruent(x: int, m: int)
    requires m > 0
    ensures Congruent(x % m, x, m)
    ensures 0 <= x % m < m
  {
    ModUnique(x % m, 0, x % m, m);
  }

  /** Congruence is kept by scaling and by adding the same value. */
  lemma CongruentLinear(a: int, b: int, k: int, d: int, m: int)
    requires m > 0 && Congruent(a, b, m)
    ensures Congruent(a * k + d, b * k + d, m)
  {
    var qa, qb := a / m, b / m;
    assert a == qa * m + a % m;
    assert b == qb * m + b % m;
    assert a - b == (qa - qb) * m;
    assert a * k - b * k == (a - b) * k;
    assert a * k + d == (b * k + d) + ((qa - qb) * k) * m;
    ModAddMultiple(b * k + d, (qa - qb) * k, m);
  }

  /** Removing congruent multiples of congruent terms keeps values congruent. */
  lemma CongruentRemoveTerm(h: int, v: int, hm: int, p: int, c: int, modulus: int)
    requires modulus > 0 && Congruent(h, v, modulus) && Congruent(hm, p, modulus)
    ensures Congruent(h - c * hm, v - c * p, modulus)
  {
    var x := c * hm;
    CongruentLinear(h, v, 1, -x, modulus);
    assert Congruent(h - x, v - x, modulus);
    CongruentLinear(hm, p, -c, v, modulus);
    assert hm * -c + v == v - x;
    assert p * -c + v == v - c * p;
  }
}
