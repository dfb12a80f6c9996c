/** Powers of two, and how often a range can be halved: the measures of both searches. */
module Powers {
  function Pow2(n: nat): nat
  {
    if n == 0 then 1 else 2 * Pow2(n - 1)
  }

  lemma {:induction false} Pow2Adds(m: nat, n: nat)
    ensures Pow2(m + n) == Pow2(m) * Pow2(n)
  {
    if m > 0 {
      Pow2Adds(m - 1, n);
      DoubledProduct(Pow2(m - 1), Pow2(n));
    }
  }

  lemma DoubledProduct(a: nat, b: nat)
    ensures 2 * (a * b) == (2 * a) * b
  {
  }

  lemma {:induction false} Pow2Grows(m: nat, n: nat)
    requires m <= n
    ensures 1 <= Pow2(m) <= Pow2(n)
  {
    if n > 0 {
      Pow2Grows(if m == 0 then 0 else m - 1, n - 1);
    }
  }

  /** How many times a range of `n` can be probed and halved until nothing is left. */
  function Halvings(n: nat): nat
  {
    if n == 0 then 0 else 1 + Halvings(n / 2)
  }

  lemma {:induction false} HalvingsGrow(m: nat, n: nat)
    requires m <= n
    ensures Halvings(m) <= Halvings(n)
  {
    if m > 0 {
      HalvingsGrow(m / 2, n / 2);
    }
  }

  lemma HalvingsStep(n: nat, h: nat)
    requires n > 0 && h == n / 2
    ensures 2 * h <= n <= 2 * h + 1
    ensures Halvings(n) == 1 + Halvings(h) && Pow2(Halvings(n)) == 2 * Pow2(Halvings(h))
  {
  }

  /** That is one more than the logarithm of `n`, rounded down. */
  lemma {:induction false} HalvingsLogarithmic(n: nat)
    requires n > 0
    ensures Pow2(Halvings(n)) <= 2 * n < 2 * Pow2(Halvings(n))
  {
    var h := n / 2;
    HalvingsStep(n, h);
    if h > 0 {
      HalvingsLogarithmic(h);
    }
  }
}
