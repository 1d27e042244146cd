/** Facts about whole-number division shared by the gallery layout and the
    carousel. */
module Arith {

  lemma MulAtLeast(d: int, n: nat)
    requires d >= 1
    ensures d * n >= n
  {
    assert d * n == (d - 1) * n + n;
    assert (d - 1) * n >= 0;
  }

  /** A multiple of `n` leaves no remainder. */
  lemma MultipleHasNoRemainder(q: int, n: nat)
    requires n > 0
    ensures (q * n) % n == 0
  {
    var a := q * n;
    DivModUnique(a, n, q, 0, a / n, a % n);
  }

  /** Quotient and remainder are unique. */
  lemma DivModUnique(a: int, n: nat, q1: int, r1: int, q2: int, r2: int)
    requires n > 0 && 0 <= r1 < n && 0 <= r2 < n
    requires a == q1 * n + r1 && a == q2 * n + r2
    ensures q1 == q2 && r1 == r2
  {
    if q1 < q2 {
      assert (q2 - q1) * n == q2 * n - q1 * n;
      MulAtLeast(q2 - q1, n);
    } else if q2 < q1 {
      assert (q1 - q2) * n == q1 * n - q2 * n;
      MulAtLeast(q1 - q2, n);
    }
  }
}
