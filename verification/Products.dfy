/** Products of natural numbers. */
module Products {
  lemma Scale(a: nat, b: nat, k: nat)
    requires a <= b
    ensures a * k <= b * k
    ensures (a + 1) * k == a * k + k
  {
  }

  lemma Distribute(a: nat, b: nat, n: nat)
    ensures (a + b) * n == n * a + n * b
  {
  }
}
