/** Quotients and remainders by a variable, which the solver needs help with, and decimal digits. */
module Numbers {

  predicate IsDigit(c: char) { '0' <= c <= '9' }

  lemma Grows(n: int, d: int)
    requires n >= 0
    ensures d >= 1 ==> n * d >= n
    ensures d <= -1 ==> n * d <= -n
  {
  }

  /** Quotient and remainder are determined by their equation. */
  lemma DivUnique(k: int, n: nat, q: int, r: nat)
    requires r < n && k == n * q + r
    ensures k % n == r && k / n == q
  {
    var d := k / n - q;
    assert n * d + k % n == r;
    Grows(n, d);
  }
}
