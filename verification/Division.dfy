/** Integer division by variables, reduced to multiplication. */
module Division {

  lemma MulMono(a: nat, b: nat, c: nat)
    requires a <= b
    ensures a * c <= b * c && c * a <= c * b
  {
  }

  /** A quotient reaches `k` exactly when the dividend reaches `k` times the divisor. */
  lemma DivReaches(n: nat, d: nat, k: nat)
    requires d > 0
    ensures n / d >= k <==> n >= k * d
  {
    var e, r := n / d, n % d;
    assert n == e * d + r;
    if e >= k {
      MulMono(k, e, d);
    } else {
      MulMono(e + 1, k, d);
      assert (e + 1) * d == e * d + d;
    }
  }

  lemma QuotientAntitone(n: nat, d: nat, e: nat)
    requires 0 < d <= e
    ensures n / e <= n / d
  {
    DivReaches(n, e, n / e);
    MulMono(d, e, n / e);
    DivReaches(n, d, n / e);
  }
}
