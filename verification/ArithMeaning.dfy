// What the decisions of the statistical models say, apart from how they are computed (section F.1.4 of ITU-T T.81).
module ArithMeaning {
  import opened Numbers
  import opened BitStrings
  import opened ArithInterval
  import opened ArithModel
  import opened ArithDecodeMcu

  function BitsIn(ds: seq<Decision>): (bits: seq<Bit>)
    ensures |bits| == |ds|
  {
    seq(|ds|, i requires 0 <= i < |ds| => ds[i].bit)
  }

  // ----- magnitudes -----

  lemma {:induction false} PatternSays(st: nat, j: nat, v: nat)
    ensures var ds := Pattern(st, if j == 0 then 0 else Pow2(j - 1), v);
      |ds| == j && BitVal(BitsIn(ds)) == v % Pow2(j) && forall i :: 0 <= i < j ==> ds[i].st == st
  {
    if j > 0 {
      var n := Pow2(j - 1);
      assert Pow2(j) == 2 * n && n / 2 == if j == 1 then 0 else Pow2(j - 2);
      PatternSays(st, j - 1, v);
      hide Pow2, BitVal;
      OneBitMore(st, n, v, BitsIn(Pattern(st, n / 2, v)), j - 1);
    }
  }

  lemma OneBitMore(st: nat, n: nat, v: nat, rest: seq<Bit>, j: nat)
    requires n == Pow2(j) && rest == BitsIn(Pattern(st, n / 2, v)) && |rest| == j && BitVal(rest) == v % n
    ensures BitVal(BitsIn(Pattern(st, n, v))) == v % (2 * n) && |Pattern(st, n, v)| == j + 1
  {
    var b: Bit := v / n % 2;
    hide Pow2;
    ModHalf(v, n);
    ValConcat([b], rest);
    ValOne(b);
    assert BitsIn(Pattern(st, n, v)) == [b] + rest;
    Commute(b, n);
  }

  lemma ValOne(b: Bit)
    ensures BitVal([b]) == b
  {
    assert [b][..0] == [];
  }

  lemma Commute(a: int, b: int)
    ensures a * b == b * a
  {
  }

  lemma {:induction false} CategorySays(st: nat, h: nat)
    ensures var ds := Category(st, h);
      |ds| == Steps(h) + 1 && forall i :: 0 <= i <= Steps(h) ==> ds[i] == D(st + i, if i < Steps(h) then 1 else 0)
    decreases h
  {
    if h > 0 { CategorySays(st + 1, h / 2); }
  }

  // v in unary and binary: n + 1 ones for a number of n + 1 bits, a zero, and the bits below its leading one.
  ghost predicate Says(ds: seq<Decision>, v: nat, n: nat) {
    && |ds| == 2 * n + 2 && Pow2(n) <= v < 2 * Pow2(n)
    && (forall i :: 0 <= i <= n + 1 ==> ds[i].bit == if i <= n then 1 else 0)
    && v == Pow2(n) + BitVal(BitsIn(ds[n + 2..]))
  }

  // Where the bins of such a list are: the first ones are given, then they are counted up from x, and the bits below the leading
  // one share a bin.
  ghost predicate UsesBins(ds: seq<Decision>, n: nat, head: nat, x: nat) {
    |ds| == 2 * n + 2 && head <= n + 2
    && (forall i :: head <= i <= n + 1 ==> ds[i].st == x + i - head)
    && forall i :: n + 2 <= i < 2 * n + 2 ==> ds[i].st == x + n + 1 - head + 14
  }

  lemma TailSays(head: seq<Decision>, x: nat, h: nat, v: nat)
    requires v > 0 && 1 <= |head| <= 2 && h == (if |head| == 1 then v / 2 else v / 2 / 2) && (|head| == 2 ==> v >= 2)
    requires forall i :: 0 <= i < |head| ==> head[i].bit == 1
    ensures var n := Steps(v / 2); var ds := head + Tail(x, h, Msb(v), v); Says(ds, v, n) && UsesBins(ds, n, |head|, x)
  {
    hide Pow2, BitVal, Category, Pattern, Msb, Steps;
    var n := Steps(v / 2);
    MsbLeads(v);
    StepsLess(v, |head|);
    CategorySays(x, h);
    PatternSays(x + Steps(h) + 14, n, v);
    HalfPow2(n);
    ModTop(v, Pow2(n));
    Assembled(head, Category(x, h), Pattern(x + Steps(h) + 14, Msb(v) / 2, v), x, n, v);
  }

  lemma StepsLess(v: nat, k: nat)
    requires 1 <= k <= 2 && v >= k
    ensures Steps(if k == 1 then v / 2 else v / 2 / 2) == Steps(v / 2) + 1 - k
  {
  }

  lemma HalfPow2(n: nat)
    ensures Pow2(n) / 2 == if n == 0 then 0 else Pow2(n - 1)
  {
  }

  lemma Assembled(head: seq<Decision>, category: seq<Decision>, bits: seq<Decision>, x: nat, n: nat, v: nat)
    requires 1 <= |head| <= 2 && |head| <= n + 1 && (forall i :: 0 <= i < |head| ==> head[i].bit == 1)
    requires |category| == n + 2 - |head|
    requires forall i :: 0 <= i < |category| ==> category[i] == D(x + i, if i < |category| - 1 then 1 else 0)
    requires |bits| == n && forall i :: 0 <= i < n ==> bits[i].st == x + n + 1 - |head| + 14
    requires Pow2(n) <= v < 2 * Pow2(n) && BitVal(BitsIn(bits)) == v - Pow2(n)
    ensures var ds := head + (category + bits); Says(ds, v, n) && UsesBins(ds, n, |head|, x)
  {
    hide Pow2, BitVal;
    assert (head + (category + bits))[n + 2..] == bits;
  }

  lemma ModTop(v: nat, p: nat)
    requires p <= v < 2 * p
    ensures v % p == v - p
  {
    ModUnique(v, p, 1, v - p);
  }

  // A DC magnitude less one, in the bins of table F.4.
  lemma DcMagnitudeSays(st: nat, x1: nat, v: nat)
    ensures v == 0 ==> DcMagnitude(st, x1, v) == [D(st, 0)]
    ensures v > 0 ==> var n := Steps(v / 2); var ds := DcMagnitude(st, x1, v);
      Says(ds, v, n) && ds[0].st == st && UsesBins(ds, n, 1, x1)
  {
    if v > 0 { TailSays([D(st, 1)], x1, v / 2, v); }
  }

  // An AC magnitude less one, in the bins of table F.5.
  lemma AcMagnitudeSays(st: nat, x2: nat, v: nat)
    ensures v == 0 ==> AcMagnitude(st, x2, v) == [D(st, 0)]
    ensures v == 1 ==> AcMagnitude(st, x2, v) == [D(st, 1), D(st, 0)]
    ensures v > 1 ==> var n := Steps(v / 2); var ds := AcMagnitude(st, x2, v);
      Says(ds, v, n) && ds[0].st == ds[1].st == st && UsesBins(ds, n, 2, x2)
  {
    if v > 1 { TailSays([D(st, 1), D(st, 1)], x2, v / 2 / 2, v); }
  }

  // ----- DC differences -----

  // A difference: whether it is zero, its sign, and its magnitude less one.
  lemma DcSays(base: nat, s0: nat, diff: int)
    ensures var ds := DcDecisions(base, s0, diff); ds[0] == D(s0, if diff == 0 then 0 else 1)
    ensures diff == 0 ==> |DcDecisions(base, s0, diff)| == 1
    ensures diff != 0 ==> var ds := DcDecisions(base, s0, diff);
      && |ds| >= 3 && ds[1] == D(s0 + 1, if diff < 0 then 1 else 0)
      && ds[2].st == s0 + (if diff < 0 then 3 else 2)
      && (Abs(diff) == 1 ==> BitsIn(ds[2..]) == [0])
      && (Abs(diff) > 1 ==> var n := Steps((Abs(diff) - 1) / 2); Says(ds[2..], Abs(diff) - 1, n) && UsesBins(ds[2..], n, 1, base + 20))
  {
    if diff != 0 {
      var v := Abs(diff) - 1;
      var rest := DcMagnitude(s0 + 2 + SignBit(diff), base + 20, v);
      DcMagnitudeSays(s0 + 2 + SignBit(diff), base + 20, v);
      assert DcDecisions(base, s0, diff)[2..] == rest;
    }
  }

  // Two conditioning limits divide the differences: up to 2^(L-1), rounded down, they count as zero; above 2^U as large.
  lemma ContextMeans(diff: int, lower: nat, upper: nat)
    ensures var c := NextContext(diff, lower, upper);
      && (c == 0 <==> Abs(diff) <= Pow2(lower) / 2)
      && (Abs(diff) > Pow2(lower) / 2 ==> (c == 12 || c == 16 <==> Abs(diff) > Pow2(upper)))
      && (Abs(diff) > Pow2(lower) / 2 ==> c == (if Abs(diff) > Pow2(upper) then 12 else 4) + if diff > 0 then 0 else 4)
  {
    hide Pow2, Msb, Steps;
    if diff != 0 {
      var v := Abs(diff) - 1;
      var n := Steps(v / 2);
      if v > 0 { MsbLeads(v); }
      Compared(v, n, lower);
      Compared(v, n, upper);
    }
  }

  // Comparing the leading bit of a number with half a power of two is comparing the number itself.
  lemma Compared(v: nat, n: nat, k: nat)
    requires v > 0 ==> Pow2(n) <= v < 2 * Pow2(n)
    ensures var m := if v == 0 then 0 else Pow2(n);
      && (m < Pow2(k) / 2 <==> v + 1 <= Pow2(k) / 2) && (m > Pow2(k) / 2 <==> v + 1 > Pow2(k))
  {
    hide Pow2;
    if k == 0 {
      Pow2First();
    } else {
      HalfOf(k);
      HalfOf(n + 1);
      if n < k - 1 {
        Pow2AtMost(n + 1, k - 1);
      } else if n > k - 1 {
        Pow2AtMost(k, n);
      }
      ByHalves(v, Pow2(n), Pow2(k - 1));
    }
  }

  lemma HalfOf(k: nat)
    requires k > 0
    ensures Pow2(k) == 2 * Pow2(k - 1)
  {
  }

  lemma ByHalves(v: nat, p: nat, h: nat)
    requires (v > 0 ==> p <= v < 2 * p) && p > 0 && h > 0 && (2 * p <= h || p == h || 2 * h <= p)
    ensures var m := if v == 0 then 0 else p;
      && (m < 2 * h / 2 <==> v + 1 <= 2 * h / 2) && (m > 2 * h / 2 <==> v + 1 > 2 * h)
  {
  }

  lemma Pow2AtMost(i: nat, j: nat)
    requires i <= j
    ensures Pow2(i) <= Pow2(j)
  {
    if i < j { Pow2Less(i, j); }
  }

  // ----- AC coefficients -----

  // The end-of-block decision says whether anything is left of the band.
  lemma EndSays(base: nat, w: seq<int>, kx: int, k: nat, se: nat)
    requires 1 <= k <= se < |w|
    ensures var ds := AcDecisions(base, w, kx, k, EobIndex(w, se), se);
      ds != [] && ds[0] == D(base + 3 * (k - 1), if forall i :: k <= i <= se ==> w[i] == 0 then 1 else 0)
  {
  }

  // The next decision says whether the coefficient is zero; if it is not, its sign and magnitude follow.
  lemma CoefSays(base: nat, w: seq<int>, kx: int, k: nat, ke: nat, se: nat)
    requires 1 <= k <= ke < |w| && w[ke] != 0
    ensures var ds := AcRun(base, w, kx, k, ke, se);
      && ds[0] == D(base + 3 * (k - 1) + 1, if w[k] == 0 then 0 else 1)
      && (w[k] != 0 ==>
            && |ds| >= 3 && ds[1] == D(FIXED_BIN, if w[k] < 0 then 1 else 0)
            && AcMagnitude(base + 3 * (k - 1) + 2, base + (if k <= kx then 189 else 217), Abs(w[k]) - 1) <= ds[2..])
  {
    if w[k] != 0 {
      var st, magnitude := base + 3 * (k - 1), AcMagnitude(base + 3 * (k - 1) + 2, X2(base, k, kx), Abs(w[k]) - 1);
      hide AcMagnitude, AcDecisions;
      Behind([D(st + 1, 1), D(FIXED_BIN, SignBit(w[k]))], magnitude, AcDecisions(base, w, kx, k + 1, ke, se));
    }
  }

  lemma Behind(head: seq<Decision>, magnitude: seq<Decision>, rest: seq<Decision>)
    requires |head| == 2 && magnitude != []
    ensures var ds := head + magnitude + rest; |ds| >= 3 && ds[0] == head[0] && ds[1] == head[1] && magnitude <= ds[2..]
  {
    assert (head + magnitude + rest)[2..] == magnitude + rest;
  }

  // In a refinement the end of the band is in question only behind the last coefficient of the scan before.
  lemma RefineEndSays(base: nat, a: seq<int>, kex: nat, k: nat, se: nat)
    requires 1 <= k <= se < |a|
    ensures var ke := EobIndex(a, se);
      var ds := RefineDecisions(base, a, kex, k, ke, se);
      && ds != []
      && (k > kex || k > ke ==> ds[0] == D(base + 3 * (k - 1), if forall i :: k <= i <= se ==> a[i] == 0 then 1 else 0))
      && (k <= kex && k <= ke ==> ds[0].st != base + 3 * (k - 1))
  {
    var ke := EobIndex(a, se);
    if k <= ke { assert RefineRun(base, a, kex, k, ke, se)[0].st != base + 3 * (k - 1); }
  }

  // A coefficient that is new gets a sign, one that is not gets its next bit.
  lemma RefineSays(base: nat, a: seq<int>, kex: nat, k: nat, ke: nat, se: nat)
    requires 1 <= k <= ke < |a| && a[ke] != 0
    ensures var ds, st := RefineRun(base, a, kex, k, ke, se), base + 3 * (k - 1);
      && (a[k] == 0 ==> ds[0] == D(st + 1, 0))
      && (Abs(a[k]) == 1 ==> |ds| >= 2 && ds[0] == D(st + 1, 1) && ds[1] == D(FIXED_BIN, if a[k] < 0 then 1 else 0))
      && (Abs(a[k]) > 1 ==> ds[0].st == st + 2 && Abs(a[k]) == 2 * (Abs(a[k]) / 2) + ds[0].bit)
  {
  }

  // ----- whose bins -----

  // No two tables share a bin, and the fixed bin is no table's.
  lemma AreasApart(t: nat, u: nat)
    requires t < NUM_ARITH_TBLS && u < NUM_ARITH_TBLS
    ensures DcStats(t) + 48 < AcStats(u) && AcStats(t) + 244 < FIXED_BIN
    ensures t < u ==> DcStats(t) + 48 < DcStats(u) && AcStats(t) + 244 < AcStats(u)
  {
  }
}
