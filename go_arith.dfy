/** Go's integer remainder and the facts about Dafny's `%` that the cursor arithmetic needs. */
module GoArith {

  /** Go's `a % b` for a positive divisor: the remainder truncates toward zero, so it takes the
      sign of the dividend (Dafny's `%` is Euclidean and never negative). A zero divisor makes
      Go panic, which is why the divisor must be positive. */
  function Rem(a: int, b: int): (r: int)
    requires b > 0
    ensures a >= 0 ==> 0 <= r < b && r == a % b
    ensures a < 0 ==> -b < r <= 0
  {
    if a >= 0 then a % b else -((-a) % b)
  }

  /** Euclidean division is unique: any decomposition `a == q * n + r` with `0 <= r < n`
      is the one Dafny's `/` and `%` pick. */
  lemma ModUnique(a: int, n: int, q: int, r: int)
    requires n > 0 && 0 <= r < n && a == q * n + r
    ensures a % n == r && a / n == q
  {
    var q', r' := a / n, a % n;
    assert a == q' * n + r';
    assert (q - q') * n == r' - r;
    if q > q' {
      MulAtLeast(q - q', n);
      assert false;
    } else if q < q' {
      MulAtLeast(q' - q, n);
      assert false;
    }
  }

  lemma MulAtLeast(k: int, n: int)
    requires k >= 1 && n > 0
    ensures k * n >= n
  {
    assert k * n == (k - 1) * n + n;
    assert (k - 1) * n >= 0;
  }

  /** Adding after reducing modulo `n` gives the same remainder as adding first. */
  lemma ModAddLeft(a: int, j: int, n: int)
    requires n > 0
    ensures ((a % n) + j) % n == (a + j) % n
  {
    var q := a / n;
    assert a == q * n + a % n;
    var q2 := ((a % n) + j) / n;
    var r2 := ((a % n) + j) % n;
    assert (a % n) + j == q2 * n + r2;
    assert a + j == (q + q2) * n + r2;
    ModUnique(a + j, n, q + q2, r2);
  }
}
