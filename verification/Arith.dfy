/** Division facts used by the periodic schedules. */
module Arith {

  lemma DivUnique(x: int, k: int, q: int, r: int)
    requires k > 0 && x == q * k + r && 0 <= r < k
    ensures x / k == q && x % k == r
  {
    var d := x / k - q;
    assert d * k == r - x % k by {
      assert x == (x / k) * k + x % k;
      assert d * k == (x / k) * k - q * k;
    }
    NonzeroMultiple(d, k);
  }

  lemma NonzeroMultiple(d: int, k: int)
    requires k > 0
    ensures d >= 1 ==> d * k >= k
    ensures d <= -1 ==> d * k <= -k
  {
    if d >= 1 {
      MulMonotone(1, d, k);
    } else if d <= -1 {
      MulMonotone(d, -1, k);
    }
  }

  lemma MulMonotone(a: int, b: int, k: int)
    requires a <= b && k >= 0
    ensures a * k <= b * k
  {
    assert (b - a) * k >= 0;
  }

  /** One step back: within a frame, or from its start to the last slot of the frame before. */
  lemma DivBack(j: int, k: int)
    requires k > 0
    ensures j % k != 0 ==> (j - 1) / k == j / k && (j - 1) % k == j % k - 1
    ensures j % k == 0 ==> (j - 1) / k == j / k - 1 && (j - 1) % k == k - 1
  {
    var q, r := j / k, j % k;
    assert j == q * k + r;
    if r != 0 {
      DivUnique(j - 1, k, q, r - 1);
    } else {
      assert (q - 1) * k == q * k - k;
      DivUnique(j - 1, k, q - 1, k - 1);
    }
  }

  /** A whole frame further. */
  lemma DivPlus(j: int, k: int, f: int)
    requires k > 0
    ensures (j + f * k) / k == j / k + f && (j + f * k) % k == j % k
  {
    var q, r := j / k, j % k;
    assert (q + f) * k == q * k + f * k;
    DivUnique(j + f * k, k, q + f, r);
  }

  lemma DivSmall(m: int, k: int)
    requires 0 <= m < k
    ensures m / k == 0 && m % k == m
  {
    DivUnique(m, k, 0, m);
  }
}
