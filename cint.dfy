/**
 * The C integer semantics the core relies on: 32-bit two's-complement `int`,
 * 64-bit unsigned `size_t`/`uint64_t`, and C's truncating `%`.
 */
module CInt {
  const INT32_MIN: int := -0x8000_0000
  const INT32_MAX: int := 0x7fff_ffff
  const TWO_32: int := 0x1_0000_0000
  const TWO_64: int := 0x1_0000_0000_0000_0000

  predicate IsInt32(x: int) { INT32_MIN <= x <= INT32_MAX }

  function Abs(x: int): nat { if x < 0 then -x else x }

  /** Wraps a mathematical integer into a 32-bit signed int (two's complement). */
  function Wrap32(x: int): (r: int)
    ensures IsInt32(r)
    ensures IsInt32(x) ==> r == x
  {
    (x - INT32_MIN) % TWO_32 + INT32_MIN
  }

  /** Wraps a mathematical integer into a 64-bit unsigned value. */
  function Wrap64(x: int): (r: nat)
    ensures r < TWO_64
    ensures 0 <= x < TWO_64 ==> r == x
  {
    x % TWO_64
  }

  /**
   * C's `a % b`: the quotient is truncated toward zero, so the remainder
   * carries the sign of the dividend (Dafny's own `%` never goes negative).
   */
  function CRem(a: int, b: int): (r: int)
    requires b != 0
    ensures Abs(r) < Abs(b)
    ensures a >= 0 ==> r == a % Abs(b)
    ensures a < 0 ==> r <= 0
  {
    if a >= 0 then a % Abs(b) else -((-a) % Abs(b))
  }

  /**
   * For a negative dividend whose magnitude is not a multiple of b, C's
   * remainder is negative: it is the floor remainder minus b.
   */
  lemma CRemNegative(a: int, b: int)
    requires b > 0 && a < 0 && (-a) % b != 0
    ensures CRem(a, b) < 0
    ensures CRem(a, b) == a % b - b
  {
    var q := (-a) / b;
    var m := (-a) % b;
    assert -a == q * b + m;
    assert a == (-q - 1) * b + (b - m);
    DivModUnique(a, b, -q - 1, b - m);
  }

  /** Euclidean division is determined by its quotient and remainder. */
  lemma DivModUnique(a: int, b: int, q: int, r: int)
    requires b > 0 && a == q * b + r && 0 <= r < b
    ensures a % b == r && a / b == q
  {
    var q', r' := a / b, a % b;
    assert a == q' * b + r';
    assert (q - q') * b == r' - r;
    if q' < q {
      MulAtLeast(q - q', b);
    } else if q' > q {
      MulAtLeast(q' - q, b);
    }
  }

  lemma MulAtLeast(k: int, b: int)
    requires k >= 1 && b > 0
    ensures k * b >= b
  {
    assert k * b == b + (k - 1) * b;
  }

  /** A whole multiple of n leaves no remainder. */
  lemma MultipleMod(k: int, n: int)
    requires n > 0
    ensures (k * n) % n == 0
  {
    DivModUnique(k * n, n, k, 0);
  }

  /** Euclidean division splits a into quotient times n plus remainder. */
  lemma DivModSplit(a: int, n: int)
    requires n > 0
    ensures a == a / n * n + a % n
  {
  }

  lemma MulNonPositive(k: int, n: int)
    requires k <= 0 && n > 0
    ensures k * n <= 0
  {
  }

  /** Two values less than n apart have different remainders modulo n. */
  lemma ModDistinct(a: int, b: int, n: int)
    requires n > 0 && a < b < a + n
    ensures a % n != b % n
  {
    var qa, qb := a / n, b / n;
    DivModSplit(a, n);
    DivModSplit(b, n);
    if a % n == b % n {
      assert b - a == qb * n - qa * n;
      assert qb * n - qa * n == (qb - qa) * n;
      if qb - qa >= 1 {
        MulAtLeast(qb - qa, n);
      } else {
        MulNonPositive(qb - qa, n);
      }
    }
  }

  /** Stepping a remainder by one and reducing again is stepping the number. */
  lemma ModSucc(a: int, n: int)
    requires n > 0
    ensures (a % n + 1) % n == (a + 1) % n
  {
    var q, r := a / n, a % n;
    DivModSplit(a, n);
    if r < n - 1 {
      DivModUnique(a + 1, n, q, r + 1);
      DivModUnique(r + 1, n, 0, r + 1);
    } else {
      assert a + 1 == (q + 1) * n + 0;
      DivModUnique(a + 1, n, q + 1, 0);
      DivModUnique(r + 1, n, 1, 0);
    }
  }
}
