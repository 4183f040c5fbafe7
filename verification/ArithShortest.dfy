// Why the code string that ends a segment is as short as can be (section D.1.8 of ITU-T T.81).
module ArithShortest {
  import opened Numbers
  import opened ArithInterval

  // x ends in k zero bits.
  ghost predicate ZeroBits(x: nat, k: nat) { x % Pow2(k) == 0 }

  // No number of the interval ends in more zero bits than g.
  ghost predicate Roundest(low: nat, size: nat, g: nat) {
    forall x: nat, k: nat :: low <= x < low + size && ZeroBits(x, k) ==> ZeroBits(g, k)
  }

  lemma ModuloOf(x: nat, a: nat, b: nat)
    requires a >= 1 && b >= 1 && a * b >= 1 && x % (a * b) == 0
    ensures x % a == 0
  {
    var q := x / (a * b);
    assert x == q * (a * b);
    assert x == (q * b) * a by { Regroup(q, a, b); }
    Multiple(q * b, a);
  }

  lemma Regroup(q: nat, a: nat, b: nat)
    ensures q * (a * b) == (q * b) * a
  {
  }

  lemma Multiple(q: nat, a: nat)
    requires a >= 1
    ensures q * a % a == 0
  {
    var x := q * a;
    var d, r := x / a, x % a;
    assert x == d * a + r;
    if d < q { MulLe(d + 1, q, a); MulDist(d, 1, a); } else if d > q { MulLe(q + 1, d, a); MulDist(q, 1, a); }
  }

  lemma FewerZeroBits(x: nat, k: nat, j: nat)
    requires j <= k && ZeroBits(x, k)
    ensures ZeroBits(x, j)
  {
    Pow2Plus(j, k - j);
    hide Pow2;
    ModuloOf(x, Pow2(j), Pow2(k - j));
  }

  lemma HighBits(x: nat)
    ensures ZeroBits(x, 15) <==> x % 0x8000 == 0
    ensures ZeroBits(x, 16) <==> x % 0x10000 == 0
  {
    Pow2First();
    Pow2Plus(8, 7);
    Pow2Plus(8, 8);
  }

  lemma OneMultiple(low: nat, size: nat, g: nat, x: nat)
    requires size <= 0x10000 && low <= g < low + size && low <= x < low + size && g % 0x10000 == 0 && x != g
    ensures x % 0x10000 != 0
  {
  }

  // A multiple of 2^16 if there is one in the interval, which has no room for two, or else one of 2^15.
  lemma RoundestIs(low: nat, size: nat, g: nat)
    requires size <= 0x10000 && low <= g < low + size && g % 0x8000 == 0
    requires g % 0x10000 == 0 || forall x: nat :: low <= x < low + size ==> x % 0x10000 != 0
    ensures Roundest(low, size, g)
  {
    hide ZeroBits;
    forall x: nat, k: nat | low <= x < low + size && ZeroBits(x, k)
      ensures ZeroBits(g, k)
    {
      if x != g { OtherNumber(low, size, g, x, k); }
    }
  }

  lemma OtherNumber(low: nat, size: nat, g: nat, x: nat, k: nat)
    requires size <= 0x10000 && low <= g < low + size && g % 0x8000 == 0 && low <= x < low + size && x != g && ZeroBits(x, k)
    requires g % 0x10000 == 0 || x % 0x10000 != 0
    ensures ZeroBits(g, k)
  {
    hide ZeroBits;
    HighBits(g);
    HighBits(x);
    if g % 0x10000 == 0 { OneMultiple(low, size, g, x); }
    if k > 15 { FewerZeroBits(x, k, 16); } else { FewerZeroBits(g, 15, k); }
  }

  // ----- bytes -----

  // Bytes n to m - 1 as a number.
  function Rest(code: seq<Byte>, n: nat, m: nat): nat
    requires n <= m
  {
    if m == n then 0 else 0x100 * Rest(code, n, m - 1) + At(code, m - 1)
  }

  lemma {:induction false} PrefixSplit(code: seq<Byte>, n: nat, m: nat)
    requires n <= m
    ensures Prefix(code, m) == Prefix(code, n) * Pow2(8 * (m - n)) + Rest(code, n, m)
    ensures Rest(code, n, m) < Pow2(8 * (m - n))
  {
    if n < m {
      PrefixSplit(code, n, m - 1);
      var p := Pow2(8 * (m - 1 - n));
      Pow2First();
      Pow2Plus(8, 8 * (m - 1 - n));
      hide Pow2;
      Carried(Prefix(code, n), p, Rest(code, n, m - 1), At(code, m - 1));
    }
  }

  lemma Carried(a: nat, p: nat, r: nat, b: Byte)
    requires r < p
    ensures 0x100 * (a * p + r) + b == a * (0x100 * p) + (0x100 * r + b) && 0x100 * r + b < 0x100 * p
  {
  }

  lemma {:induction false} RestZero(code: seq<Byte>, n: nat, m: nat, i: nat)
    requires n <= i < m && Rest(code, n, m) == 0
    ensures At(code, i) == 0
  {
    if i < m - 1 { RestZero(code, n, m - 1, i); }
  }

  lemma {:induction false} PastEnd(code: seq<Byte>, n: nat, m: nat)
    requires |code| <= n <= m
    ensures Rest(code, n, m) == 0
  {
    if n < m { PastEnd(code, n, m - 1); }
  }

  // A number that ends in that many zero bits ends in zero bytes.
  lemma EndsInZeros(code: seq<Byte>, n: nat, m: nat)
    requires n <= m && ZeroBits(Prefix(code, m), 8 * (m - n))
    ensures Rest(code, n, m) == 0
  {
    var p := Pow2(8 * (m - n));
    PrefixSplit(code, n, m);
    hide Pow2;
    Remainder(Prefix(code, n), p, Rest(code, n, m));
  }

  lemma Remainder(a: nat, p: nat, r: nat)
    requires r < p && (a * p + r) % p == 0
    ensures r == 0
  {
    var x := a * p + r;
    var d := x / p;
    assert x == d * p;
    if d < a { MulLe(d + 1, a, p); MulDist(d, 1, p); } else if d > a { MulLe(a + 1, d, p); MulDist(a, 1, p); }
  }

  // The code string of the roundest number, trailing zero bytes dropped, has no more bytes than any other in the interval.
  lemma Shortest(code: seq<Byte>, g: nat, iv: Interval, m: nat, ct: nat, other: seq<Byte>)
    requires 8 * m == 16 + iv.shift + ct && ct <= 16 && Prefix(code, m) == g * Pow2(ct) && Roundest(iv.low, iv.size, g)
    requires |code| + 2 <= m && (code != [] ==> code[|code| - 1] != 0) && Holds(other, iv)
    ensures |code| <= |other|
  {
    var n := |other|;
    if n < |code| {
      var k := 8 * (m - n) - ct;
      hide ZeroBits, Roundest, Holds, HoldsAt;
      Shorter(g, iv, m, ct, other, k);
      MoreZeroBits(g, k, ct);
      EndsInZeros(code, n, m);
      RestZero(code, n, m, |code| - 1);
      assert false;
    }
  }

  lemma MoreZeroBits(g: nat, k: nat, ct: nat)
    requires ZeroBits(g, k)
    ensures ZeroBits(g * Pow2(ct), k + ct)
  {
    var p, q := Pow2(k), Pow2(ct);
    Pow2Plus(k, ct);
    hide Pow2;
    var d := g / p;
    assert g == d * p;
    Associate(d, p, q);
    Multiple(d, p * q);
  }

  lemma Associate(a: nat, b: nat, c: nat)
    ensures a * b * c == a * (b * c)
  {
  }

  // A shorter code string would be a number of the interval that ends in many zero bits.
  lemma Shorter(g: nat, iv: Interval, m: nat, ct: nat, other: seq<Byte>, k: nat)
    requires 8 * m == 16 + iv.shift + ct && Roundest(iv.low, iv.size, g) && Holds(other, iv)
    requires |other| <= m && k + ct == 8 * (m - |other|)
    ensures ZeroBits(g, k)
  {
    var v, p, q := Prefix(other, |other|), Pow2(ct), Pow2(k);
    HoldsAnywhere(other, iv, m, ct);
    PrefixSplit(other, |other|, m);
    PastEnd(other, |other|, m);
    Pow2Plus(k, ct);
    hide Pow2, Roundest, Holds, Prefix;
    Associate(v, q, p);
    Below(iv.low, v * q, p);
    Above(iv.low + iv.size, v * q, p);
    Multiple(v, q);
    OfInterval(iv, g, v * q, k);
  }

  lemma OfInterval(iv: Interval, g: nat, x: nat, k: nat)
    requires Roundest(iv.low, iv.size, g) && iv.low <= x < iv.low + iv.size && x % Pow2(k) == 0
    ensures ZeroBits(g, k)
  {
    assert ZeroBits(x, k);
  }

  lemma Below(a: nat, x: nat, p: nat)
    requires p >= 1 && a * p <= x * p
    ensures a <= x
  {
    if x < a { MulLess(x, a, p); }
  }

  lemma Above(b: nat, x: nat, p: nat)
    requires p >= 1 && x * p < b * p
    ensures x < b
  {
    if b <= x { MulLe(b, x, p); }
  }
}
