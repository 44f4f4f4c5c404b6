/** Powers of two, and the one fact about products that everything else is proved from. */
module Powers {

  const TWO_28 := 0x1000_0000
  const TWO_32 := 0x1_0000_0000
  const TWO_64 := 0x1_0000_0000_0000_0000

  function Pow2(k: nat): (n: nat)
    ensures n > 0
  {
    if k == 0 then 1 else 2 * Pow2(k - 1)
  }

  lemma MulAtLeast(k: int, n: nat)
    requires k >= 1
    ensures k * n >= n
  {
  }

  /** Moving a factor of two through a product. */
  lemma MulDouble(a: nat, b: nat)
    ensures a * (2 * b) == 2 * (a * b)
  {
  }

  lemma {:induction false} Pow2Sum(a: nat, b: nat)
    ensures Pow2(a + b) == Pow2(a) * Pow2(b)
    decreases b
  {
    if b > 0 {
      Pow2Sum(a, b - 1);
      Pow2Step(a + b - 1);
      Pow2Step(b - 1);
      hide Pow2;
      assert a + b - 1 == a + (b - 1);
      MulDouble(Pow2(a), Pow2(b - 1));
    }
  }

  lemma Pow2Step(k: nat)
    ensures Pow2(k + 1) == 2 * Pow2(k)
  {
  }
}
