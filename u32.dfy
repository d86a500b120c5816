/**
 * Unsigned 32-bit arithmetic as C++ performs it on `uint32_t`: every
 * result is reduced modulo 2^32. The transmit buffer keeps all of its byte,
 * unit and stream counters in `uint32_t` fields, so each update of such a
 * field goes through one of these functions.
 */
module U32 {

  const M: int := 0x1_0000_0000

  /** An octet (`uint8_t`). */
  newtype byte = x: int | 0 <= x < 256

  /** A value that fits in a `uint32_t`. */
  predicate Is32(x: int) {
    0 <= x < M
  }

  /** Reduction of a mathematical integer to `uint32_t`. */
  function Wrap(x: int): (r: nat)
    ensures Is32(r)
    ensures Is32(x) ==> r == x
  {
    x % M
  }

  /** `a + b` on `uint32_t`. */
  function Add(a: nat, b: nat): (r: nat)
    ensures Is32(r)
    ensures a + b < M ==> r == a + b
  {
    (a + b) % M
  }

  /** `a - b` on `uint32_t`: wraps around when `b > a`. */
  function Sub(a: nat, b: nat): (r: nat)
    ensures Is32(r)
    ensures b <= a < M ==> r == a - b
    ensures Is32(a) && Is32(b) && a < b ==> r == a - b + M
  {
    (a - b) % M
  }

  /** `a * b` on `uint32_t`. */
  function Mul(a: nat, b: nat): (r: nat)
    ensures Is32(r)
  {
    (a * b) % M
  }

  /** A product that fits is computed exactly. */
  lemma MulExact(a: nat, b: nat)
    requires a * b < M
    ensures Mul(a, b) == a * b
  {
  }

  /** `std::min` on two counters. */
  function Min(a: nat, b: nat): (r: nat)
    ensures r <= a && r <= b && (r == a || r == b)
  {
    if a <= b then a else b
  }

  /** Congruence modulo 2^32: the relation every wrapped update preserves. */
  predicate Cong(a: int, b: int) {
    a % M == b % M
  }

  lemma AddCong(a: nat, b: nat)
    ensures Cong(Add(a, b), a + b)
  {
  }

  lemma SubCong(a: nat, b: nat)
    ensures Cong(Sub(a, b), a - b)
  {
  }

  /** Two wrapped additions in a row are one wrapped addition of the sum. */
  lemma AddAdd(a: nat, b: nat, c: nat)
    ensures Add(Add(a, b), c) == Add(a, b + c)
  {
    AddCong(a, b);
    CongShift(Add(a, b), a + b, c);
  }

  /** Congruence is compatible with adding the same amount on both sides. */
  lemma CongShift(a: int, b: int, c: int)
    requires Cong(a, b)
    ensures Cong(a + c, b + c)
  {
    var qa, qb := a / M, b / M;
    assert a == qa * M + a % M;
    assert b == qb * M + b % M;
    assert a + c == b + c + (qa - qb) * M;
    ModPeriodic(b + c, qa - qb);
  }

  /** Adding a multiple of 2^32 does not change the remainder. */
  lemma ModPeriodic(x: int, k: int)
    ensures (x + k * M) % M == x % M
    decreases if k < 0 then -k else k
  {
    if k > 0 {
      ModPeriodic(x, k - 1);
      assert x + k * M == (x + (k - 1) * M) + M;
    } else if k < 0 {
      ModPeriodic(x, k + 1);
      assert x + k * M == (x + (k + 1) * M) - M;
    }
  }

  lemma CongTrans(a: int, b: int, c: int)
    requires Cong(a, b) && Cong(b, c)
    ensures Cong(a, c)
  {
  }

  /** Two values that fit in 32 bits and are congruent are equal. */
  lemma CongEq(a: int, b: int)
    requires Is32(a) && Is32(b) && Cong(a, b)
    ensures a == b
  {
  }

  /** Congruence is compatible with addition. */
  lemma CongAdd(a: int, b: int, c: int, d: int)
    requires Cong(a, b) && Cong(c, d)
    ensures Cong(a + c, b + d)
  {
    CongShift(a, b, c);
    CongShift(c, d, b);
    assert c + b == b + c && d + b == b + d;
  }

  /** Congruence is compatible with subtraction. */
  lemma CongSub(a: int, b: int, c: int, d: int)
    requires Cong(a, b) && Cong(c, d)
    ensures Cong(a - c, b - d)
  {
    CongShift(a, b, -c);
    CongNeg(c, d);
    CongShift(-c, -d, b);
    assert -c + b == b - c && -d + b == b - d;
  }

  lemma CongNeg(a: int, b: int)
    requires Cong(a, b)
    ensures Cong(-a, -b)
  {
    var qa, qb := a / M, b / M;
    assert a == qa * M + a % M && b == qb * M + b % M;
    assert -a == -b + (qb - qa) * M;
    ModPeriodic(-b, qb - qa);
  }
}
