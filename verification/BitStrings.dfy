// Bit strings, most significant bit first, and the numbers they stand for.
module BitStrings {
  import opened Numbers

  function BitVal(s: seq<Bit>): nat {
    if s == [] then 0 else 2 * BitVal(s[..|s| - 1]) + s[|s| - 1]
  }

  // The n low bits of v.
  function BitsOf(v: nat, n: nat): (s: seq<Bit>)
    ensures |s| == n
  {
    if n == 0 then [] else BitsOf(v / 2, n - 1) + [v % 2]
  }

  // The first bit is the highest.
  lemma {:induction false} BitAt(v: nat, n: nat, i: nat)
    requires i < n
    ensures BitsOf(v, n)[i] == v / Pow2(n - 1 - i) % 2
  {
    if i < n - 1 {
      BitAt(v / 2, n - 1, i);
      assert Pow2(n - 1 - i) == 2 * Pow2(n - 2 - i);
      hide Pow2;
      HalfFirst(v, Pow2(n - 2 - i));
    }
  }

  lemma HalfFirst(v: nat, p: nat)
    requires p >= 1
    ensures v / 2 / p == v / (2 * p)
  {
    var a, r := v / 2, v % 2;
    var q, s := a / p, a % p;
    assert v == 2 * a + r && a == q * p + s;
    assert q * (2 * p) == 2 * (q * p);
    Quotient(v, q, 2 * p, 2 * s + r);
  }

  lemma {:induction false} ValBound(s: seq<Bit>)
    ensures BitVal(s) < Pow2(|s|)
  {
    if s != [] { ValBound(s[..|s| - 1]); }
  }

  lemma ValSnoc(s: seq<Bit>, b: Bit)
    ensures BitVal(s + [b]) == 2 * BitVal(s) + b
  {
    assert (s + [b])[..|s|] == s;
  }

  lemma {:induction false} ValConcat(a: seq<Bit>, b: seq<Bit>)
    ensures BitVal(a + b) == BitVal(a) * Pow2(|b|) + BitVal(b)
  {
    if b == [] {
      assert a + b == a;
    } else {
      var c, q := b[..|b| - 1], Pow2(|b| - 1);
      ValConcat(a, c);
      assert (a + b)[..|a + b| - 1] == a + c;
      assert Pow2(|b|) == 2 * q;
      hide Pow2;
      MulTwice(BitVal(a), q);
    }
  }

  lemma {:induction false} ValOfBits(v: nat, n: nat)
    requires v < Pow2(n)
    ensures BitVal(BitsOf(v, n)) == v
  {
    if n > 0 {
      ValOfBits(v / 2, n - 1);
      ValSnoc(BitsOf(v / 2, n - 1), v % 2);
    }
  }

  lemma {:induction false} BitsOfVal(s: seq<Bit>)
    ensures BitsOf(BitVal(s), |s|) == s
  {
    if s != [] {
      BitsOfVal(s[..|s| - 1]);
      assert s == s[..|s| - 1] + [s[|s| - 1]];
    }
  }

  // Cutting a bit string short is dividing by a power of two.
  lemma ValTake(s: seq<Bit>, l: nat)
    requires l <= |s|
    ensures BitVal(s[..l]) == BitVal(s) / Pow2(|s| - l)
    ensures BitVal(s[l..]) == BitVal(s) % Pow2(|s| - l)
  {
    assert s == s[..l] + s[l..];
    ValConcat(s[..l], s[l..]);
    ValBound(s[l..]);
    Quotient(BitVal(s), BitVal(s[..l]), Pow2(|s| - l), BitVal(s[l..]));
  }

  lemma Quotient(x: nat, a: nat, d: nat, r: nat)
    requires d >= 1 && r < d && x == a * d + r
    ensures x / d == a && x % d == r
  {
    var q := x / d;
    assert x == q * d + x % d;
    if q < a {
      MulLe(q + 1, a, d);
      MulDist(q, 1, d);
    } else if q > a {
      MulLe(a + 1, q, d);
      MulDist(a, 1, d);
    }
  }
}
