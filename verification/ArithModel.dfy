// The statistical models of section F.1.4 of ITU-T T.81: which bins code a coefficient.
module ArithModel {
  import opened Numbers
  import opened ArithInterval

  const NUM_ARITH_TBLS := 16

  function DcStats(tbl: nat): nat { 64 * tbl }
  function AcStats(tbl: nat): nat { 1024 + 256 * tbl }

  function Abs(v: int): nat { if v < 0 then -v else v }

  function D(st: nat, bit: Bit): Decision { Decision(st, bit) }

  // ----- magnitude: Figures F.8 and F.9 -----

  // h is the value shifted right once: how often the category loop turns round.
  function Steps(h: nat): nat {
    if h == 0 then 0 else 1 + Steps(h / 2)
  }

  function Category(st: nat, h: nat): seq<Decision>
    decreases h
  {
    if h == 0 then [D(st, 0)] else [D(st, 1)] + Category(st + 1, h / 2)
  }

  // The bits of v at n, n/2, ..., 1.
  function Pattern(st: nat, n: nat, v: nat): seq<Decision> {
    if n == 0 then [] else [D(st, v / n % 2)] + Pattern(st, n / 2, v)
  }

  // m at the end of the category loop.
  function Top(m: nat, h: nat): nat
    decreases h
  {
    if h == 0 then m else Top(m * 2, h / 2)
  }

  // The most significant bit of v > 0.
  function Msb(v: nat): nat { Top(1, v / 2) }

  // The part after the first categories: X is the bin where counting starts.
  function Tail(x: nat, h: nat, m: nat, v: nat): seq<Decision> {
    Category(x, h) + Pattern(x + Steps(h) + 14, m / 2, v)
  }

  // v is the magnitude less one.
  function DcMagnitude(st: nat, x1: nat, v: nat): seq<Decision> {
    if v == 0 then [D(st, 0)] else [D(st, 1)] + Tail(x1, v / 2, Msb(v), v)
  }

  function AcMagnitude(st: nat, x2: nat, v: nat): seq<Decision> {
    if v == 0 then [D(st, 0)]
    else if v / 2 == 0 then [D(st, 1), D(st, 0)]
    else [D(st, 1), D(st, 1)] + Tail(x2, v / 2 / 2, Msb(v), v)
  }

  // ----- DC differences: Figures F.4, F.6, F.7 -----

  function SignBit(v: int): Bit { if v < 0 then 1 else 0 }

  // base is the statistics area of the table, s0 the conditioned bin.
  function DcDecisions(base: nat, s0: nat, diff: int): seq<Decision> {
    if diff == 0 then [D(s0, 0)]
    else [D(s0, 1), D(s0 + 1, SignBit(diff))] + DcMagnitude(s0 + 2 + SignBit(diff), base + 20, Abs(diff) - 1)
  }

  // Section F.1.4.4.1.2: the conditioning category the difference leaves behind.
  function NextContext(diff: int, lower: nat, upper: nat): nat {
    var v := Abs(diff) - 1;
    var m := if v <= 0 then 0 else Msb(v);
    if diff == 0 || m < Pow2(lower) / 2 then 0
    else if m > Pow2(upper) / 2 then 12 + 4 * SignBit(diff)
    else 4 + 4 * SignBit(diff)
  }

  // ----- AC coefficients: Figure F.5; w is in zigzag order, point transform done -----

  // Last nonzero coefficient at or below k.
  function EobIndex(w: seq<int>, k: nat): (ke: nat)
    requires k < |w|
    ensures ke <= k && (ke > 0 ==> w[ke] != 0)
    ensures forall i :: ke < i <= k ==> w[i] == 0
  {
    if k == 0 || w[k] != 0 then k else EobIndex(w, k - 1)
  }

  // Division by 2^al with rounding towards zero: the magnitude is what is shifted.
  function PointAc(c: int, al: nat): int {
    var q: int := Abs(c) / Pow2(al);
    if c >= 0 then q else -q
  }

  lemma PointBound(c: nat, al: nat)
    ensures c / Pow2(al) <= c
  {
    DivLe(c, Pow2(al));
  }

  lemma PointParts(c: int, al: nat)
    ensures Abs(PointAc(c, al)) == Abs(c) / Pow2(al) <= Abs(c)
    ensures PointAc(c, al) != 0 ==> SignBit(PointAc(c, al)) == SignBit(c)
  {
    hide Pow2;
    PointBound(Abs(c), al);
  }

  lemma DivLe(c: nat, p: nat)
    requires p >= 1
    ensures c / p <= c
  {
    var q := c / p;
    assert q * p <= c;
    MulLe(1, p, q);
  }

  // A block in zigzag order after the point transform.
  function Zigzag(block: seq<int>, order: seq<nat>, al: nat): (w: seq<int>)
    requires IsOrder(order) && |block| == 64
    ensures |w| == 64
  {
    seq(64, k requires 0 <= k < 64 => PointAc(block[order[k]], al))
  }

  ghost predicate IsOrder(order: seq<nat>) {
    && |order| == 64 && order[0] == 0
    && (forall k :: 0 <= k < 64 ==> order[k] < 64)
    && forall i, j :: 0 <= i < j < 64 ==> order[i] != order[j]
  }

  // The cast to JCOEF, a short.
  function ToShort(v: int): (r: int)
    ensures -0x8000 <= r < 0x8000
    ensures -0x8000 <= v < 0x8000 ==> r == v
  {
    (v + 0x8000) % 0x10000 - 0x8000
  }

  // Coefficients ss..k-1 of w, scaled by 2^al, put in their natural places in a coefficient area.
  function Placed(area: seq<int>, at: nat, order: seq<nat>, w: seq<int>, al: nat, ss: nat, k: nat): (r: seq<int>)
    requires IsOrder(order) && |w| == 64 && k <= 64 && at + 64 <= |area|
    ensures |r| == |area|
  {
    if k <= ss then area
    else
      var prev := Placed(area, at, order, w, al, ss, k - 1);
      if w[k - 1] == 0 then prev else prev[at + order[k - 1] := ToShort(w[k - 1] * Pow2(al))]
  }

  lemma {:induction false} PlacedAgain(area: seq<int>, at: nat, order: seq<nat>, w: seq<int>, al: nat, ss: nat, k: nat, k1: nat)
    requires IsOrder(order) && |w| == 64 && ss <= k <= k1 <= 64 && at + 64 <= |area|
    ensures Placed(Placed(area, at, order, w, al, ss, k), at, order, w, al, k, k1) == Placed(area, at, order, w, al, ss, k1)
  {
    if k < k1 { PlacedAgain(area, at, order, w, al, ss, k, k1 - 1); }
  }

  lemma {:induction false} PlacedAt(area: seq<int>, at: nat, order: seq<nat>, w: seq<int>, al: nat, ss: nat, k: nat, i: nat)
    requires IsOrder(order) && |w| == 64 && k <= 64 && at + 64 <= |area| && i < 64
    ensures Placed(area, at, order, w, al, ss, k)[at + order[i]]
      == if ss <= i < k && w[i] != 0 then ToShort(w[i] * Pow2(al)) else area[at + order[i]]
  {
    hide Pow2, ToShort;
    if ss < k {
      PlacedAt(area, at, order, w, al, ss, k - 1, i);
      assert i < k - 1 ==> order[i] != order[k - 1];
      assert i > k - 1 ==> order[k - 1] != order[i];
    }
  }

  lemma {:induction false} PlacedZeros(area: seq<int>, at: nat, order: seq<nat>, w: seq<int>, al: nat, ss: nat, k: nat, k1: nat)
    requires IsOrder(order) && |w| == 64 && k <= k1 <= 64 && at + 64 <= |area|
    requires forall i :: k <= i < k1 ==> w[i] == 0
    ensures Placed(area, at, order, w, al, ss, k) == Placed(area, at, order, w, al, ss, k1)
  {
    if k < k1 { PlacedZeros(area, at, order, w, al, ss, k, k1 - 1); }
  }

  ghost predicate IsBlock(block: seq<int>) {
    |block| == 64 && forall k :: 0 <= k < 64 ==> -0x8000 <= block[k] < 0x8000
  }

  function X2(base: nat, k: nat, kx: int): nat { base + if k <= kx then 189 else 217 }

  function AcDecisions(base: nat, w: seq<int>, kx: int, k: nat, ke: nat, se: nat): seq<Decision>
    requires 1 <= k && ke < |w| && (ke > 0 ==> w[ke] != 0)
    decreases ke + 1 - k, 1
  {
    if k <= ke then [D(base + 3 * (k - 1), 0)] + AcRun(base, w, kx, k, ke, se)
    else if k <= se then [D(base + 3 * (k - 1), 1)]
    else []
  }

  function AcRun(base: nat, w: seq<int>, kx: int, k: nat, ke: nat, se: nat): (r: seq<Decision>)
    requires 1 <= k <= ke < |w| && w[ke] != 0
    ensures r != []
    decreases ke + 1 - k, 0
  {
    var st := base + 3 * (k - 1);
    if w[k] == 0 then [D(st + 1, 0)] + AcRun(base, w, kx, k + 1, ke, se)
    else CoefDecisions(st, X2(base, k, kx), w[k]) + AcDecisions(base, w, kx, k + 1, ke, se)
  }

  // A nonzero coefficient: end of the zero run, sign, magnitude.
  function CoefDecisions(st: nat, x2: nat, v: int): seq<Decision>
    requires v != 0
  {
    [D(st + 1, 1), D(FIXED_BIN, SignBit(v))] + AcMagnitude(st + 2, x2, Abs(v) - 1)
  }

  // ----- AC refinement: Figure G.10; a is the block at Al, kex the last coefficient nonzero at Ah -----

  function RefineDecisions(base: nat, a: seq<int>, kex: nat, k: nat, ke: nat, se: nat): seq<Decision>
    requires 1 <= k && ke < |a| && (ke > 0 ==> a[ke] != 0)
    decreases ke + 1 - k, 1
  {
    var st := base + 3 * (k - 1);
    if k <= ke then (if k > kex then [D(st, 0)] else []) + RefineRun(base, a, kex, k, ke, se)
    else if k <= se then [D(st, 1)]
    else []
  }

  function RefineRun(base: nat, a: seq<int>, kex: nat, k: nat, ke: nat, se: nat): (r: seq<Decision>)
    requires 1 <= k <= ke < |a| && a[ke] != 0
    ensures r != []
    decreases ke + 1 - k, 0
  {
    var st := base + 3 * (k - 1);
    if a[k] == 0 then [D(st + 1, 0)] + RefineRun(base, a, kex, k + 1, ke, se)
    else (if Abs(a[k]) / 2 != 0 then [D(st + 2, Abs(a[k]) % 2)] else [D(st + 1, 1), D(FIXED_BIN, SignBit(a[k]))])
         + RefineDecisions(base, a, kex, k + 1, ke, se)
  }

  // The value of a coefficient before its bit al is sent, given v = the value shifted to al.
  function Prior(v: int, al: nat): int {
    if v >= 0 then v / 2 * Pow2(al + 1) else -(-v / 2 * Pow2(al + 1))
  }

  function SignedBy(v: int, p: int): int {
    if v < 0 then -p else p
  }

  lemma PriorStep(v: int, al: nat)
    ensures Prior(v, al) != 0 <==> Abs(v) / 2 != 0
    ensures Abs(v) / 2 != 0 ==> (Prior(v, al) < 0 <==> v < 0)
    ensures v * Pow2(al) == Prior(v, al) + if Abs(v) % 2 == 0 then 0 else SignedBy(v, Pow2(al))
  {
    var p, q := Pow2(al), Abs(v) / 2;
    assert Pow2(al + 1) == 2 * p;
    hide Pow2;
    assert Abs(v) == 2 * q + Abs(v) % 2;
    PriorProduct(q, Abs(v) % 2, p);
    assert Prior(v, al) == if v >= 0 then q * (2 * p) else -(q * (2 * p));
    if v < 0 { MulNeg(Abs(v), p); }
  }

  lemma PriorProduct(q: nat, b: nat, p: nat)
    requires p > 0 && b < 2
    ensures (2 * q + b) * p == q * (2 * p) + if b == 1 then p else 0
    ensures q * (2 * p) > 0 <==> q > 0
  {
    MulDist(2 * q, b, p);
    MulShift(q, p);
    if q > 0 { MulLe(1, q, 2 * p); }
  }

  lemma MulNeg(a: int, p: int)
    ensures (-a) * p == -(a * p)
  {
  }

  // kex is the last coefficient up to ke that was nonzero in the previous scan of the band.
  ghost predicate IsEobx(a: seq<int>, kex: nat, ke: nat) {
    && kex <= ke < |a|
    && (kex > 0 ==> Abs(a[kex]) / 2 != 0)
    && forall k :: kex < k <= ke ==> Abs(a[k]) / 2 == 0
  }

  // Every coefficient of the band still has its value from before this scan.
  ghost predicate Unrefined(area: seq<int>, at: nat, order: seq<nat>, a: seq<int>, al: nat, k: nat, se: nat)
    requires IsOrder(order) && |a| == 64 && at + 64 <= |area|
  {
    forall i :: k <= i <= se && i < 64 ==> area[at + order[i]] == Prior(a[i], al)
  }

  ghost predicate FitsShort(a: seq<int>, al: nat) {
    forall i :: 0 <= i < |a| ==> -0x8000 <= a[i] * Pow2(al) < 0x8000
  }

  // ----- where the bins lie -----

  ghost predicate Within(ds: seq<Decision>, lo: nat, hi: nat) {
    forall k :: 0 <= k < |ds| ==> lo <= ds[k].st <= hi
  }

  lemma {:induction false} StepsBound(h: nat, n: nat)
    requires h < Pow2(n)
    ensures Steps(h) <= n
    ensures n == 0 ==> h == 0
  {
    if h > 0 {
      assert n > 0;
      StepsBound(h / 2, n - 1);
    }
  }

  lemma StepsBound16(v: nat)
    requires v < 0x10000
    ensures Steps(v / 2) <= 15 && Steps(v / 2 / 2) <= 14
  {
    assert Pow2(8) == 0x100;
    Pow2Plus(8, 7);
    Pow2Plus(8, 6);
    StepsBound(v / 2, 15);
    StepsBound(v / 2 / 2, 14);
  }

  lemma {:induction false} CategoryWithin(st: nat, h: nat)
    ensures Within(Category(st, h), st, st + Steps(h))
    decreases h
  {
    if h > 0 { CategoryWithin(st + 1, h / 2); }
  }

  lemma {:induction false} PatternWithin(st: nat, n: nat, v: nat)
    ensures Within(Pattern(st, n, v), st, st)
  {
    if n > 0 { PatternWithin(st, n / 2, v); }
  }

  lemma TailWithin(x: nat, h: nat, m: nat, v: nat, n: nat)
    requires Steps(h) <= n
    ensures Within(Tail(x, h, m, v), x, x + n + 14)
  {
    CategoryWithin(x, h);
    PatternWithin(x + Steps(h) + 14, m / 2, v);
  }

  // DC coding of a difference of magnitude at most 2^15 stays within 49 bins.
  lemma DcWithin(base: nat, context: nat, diff: int)
    requires context <= 16 && Abs(diff) <= 0x8000
    ensures Within(DcDecisions(base, base + context, diff), base, base + 48)
  {
    var v := Abs(diff) - 1;
    if v > 0 {
      assert Pow2(14) == 0x4000;
      StepsBound(v / 2, 14);
      TailWithin(base + 20, v / 2, Msb(v), v, 14);
    }
  }

  // The fixed bin aside, all bins of a list lie in the AC area of one table.
  ghost predicate InAcArea(ds: seq<Decision>, base: nat) {
    forall k :: 0 <= k < |ds| ==> ds[k].st == FIXED_BIN || base <= ds[k].st <= base + 244
  }

  lemma AcMagnitudeWithin(base: nat, k: nat, x2: nat, v: nat)
    requires 1 <= k <= 63 && v < 0x8000 && base + 189 <= x2 <= base + 217
    ensures InAcArea(AcMagnitude(base + 3 * (k - 1) + 2, x2, v), base)
  {
    assert Pow2(13) == 0x2000;
    StepsBound(v / 2 / 2, 13);
    TailWithin(x2, v / 2 / 2, Msb(v), v, 13);
  }

  // AC coding of values of magnitude at most 2^15 uses the fixed bin and 245 bins of the table.
  lemma {:induction false} AcWithin(base: nat, w: seq<int>, kx: int, k: nat, ke: nat, se: nat)
    requires 1 <= k && ke < |w| == 64 && (ke > 0 ==> w[ke] != 0) && ke <= se <= 63
    requires forall i :: 0 <= i < 64 ==> Abs(w[i]) <= 0x8000
    ensures InAcArea(AcDecisions(base, w, kx, k, ke, se), base)
    decreases ke + 1 - k, 1
  {
    if k <= ke { AcRunWithin(base, w, kx, k, ke, se); }
  }

  lemma {:induction false} AcRunWithin(base: nat, w: seq<int>, kx: int, k: nat, ke: nat, se: nat)
    requires 1 <= k <= ke <= se <= 63 && |w| == 64 && w[ke] != 0
    requires forall i :: 0 <= i < 64 ==> Abs(w[i]) <= 0x8000
    ensures InAcArea(AcRun(base, w, kx, k, ke, se), base)
    decreases ke + 1 - k, 0
  {
    hide AcMagnitude;
    if w[k] == 0 {
      AcRunWithin(base, w, kx, k + 1, ke, se);
    } else {
      AcMagnitudeWithin(base, k, X2(base, k, kx), Abs(w[k]) - 1);
      AcWithin(base, w, kx, k + 1, ke, se);
    }
  }

  lemma NextContextRange(diff: int, lower: nat, upper: nat)
    ensures NextContext(diff, lower, upper) in {0, 4, 8, 12, 16}
  {
  }
}
