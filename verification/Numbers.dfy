// Powers of two and the few product facts the other modules lean on.
module Numbers {
  type Bit = x: int | 0 <= x < 2

  type Byte = x: int | 0 <= x < 256

  function Pow2(n: nat): (p: nat)
    ensures p >= 1
  {
    if n == 0 then 1 else 2 * Pow2(n - 1)
  }

  lemma Pow2First()
    ensures Pow2(0) == 1 && Pow2(1) == 2 && Pow2(8) == 0x100
  {
  }

  lemma Pow2Eleven()
    ensures Pow2(11) == 0x800
  {
    Pow2First();
    Pow2Plus(8, 3);
  }

  lemma {:induction false} Pow2Plus(m: nat, n: nat)
    ensures Pow2(m + n) == Pow2(m) * Pow2(n)
  {
    if m > 0 { Pow2Plus(m - 1, n); }
  }

  lemma MulShift(a: nat, p: nat)
    ensures (2 * a) * p == a * (2 * p)
  {
  }

  lemma MulTwice(a: nat, p: nat)
    ensures a * (2 * p) == 2 * (a * p)
  {
  }

  // Anything below one whole, scaled up, stays below it.
  lemma MulLess(k: nat, m: nat, q: nat)
    requires k < m && q >= 1
    ensures k * q < m * q
  {
    MulLe(k + 1, m, q);
    MulDist(k, 1, q);
  }

  lemma MulDist(a: nat, b: nat, p: nat)
    ensures (a + b) * p == a * p + b * p
  {
  }

  lemma MulLe(a: nat, b: nat, p: nat)
    requires a <= b
    ensures a * p <= b * p
  {
    assert b * p == a * p + (b - a) * p;
  }
}
