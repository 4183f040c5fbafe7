// How an image divides into blocks and MCUs, as both master controllers compute it.
module Geometry {
  import opened Numbers

  // The limits that jpeglib.h and jmorecfg.h fix.
  datatype Limits = Limits(maxDimension: nat, maxComponents: nat, maxSampFactor: nat, maxCompsInScan: nat, maxBlocksInMcu: nat)

  datatype Sampling = Sampling(h: int, v: int)

  // A component: its sampling factors, and its size in blocks.
  datatype Component = Component(h: nat, v: nat, width: nat, height: nat)

  // What initial_setup leaves behind; perRow and rows count the MCUs of a scan of all components.
  datatype Dims = Dims(perRow: nat, rows: nat, comps: seq<Component>)

  // ----- groups of blocks -----

  // A product that the solver is not to take apart.
  function Times(a: nat, b: nat): nat { a * b }

  lemma TimesNext(a: nat, b: nat)
    ensures Times(a + 1, b) == Times(a, b) + b
  {
  }

  lemma TimesNone(b: nat)
    ensures Times(0, b) == 0
  {
  }

  lemma TimesOne(b: nat)
    ensures Times(1, b) == b
  {
  }

  lemma TimesMono(a: nat, b: nat, per: nat)
    requires a <= b
    ensures Times(a, per) <= Times(b, per)
  {
    MulLe(a, b, per);
  }

  // n blocks make total groups of per blocks, the last one perhaps incomplete.
  ghost predicate Spans(n: nat, per: nat, total: nat) {
    total >= 1 && per >= 1 && Times(total - 1, per) < n <= Times(total, per)
  }

  // jdiv_round_up
  function DivRoundUp(a: nat, b: nat): nat
    requires b >= 1
  {
    (a + b - 1) / b
  }

  lemma QuotientIs(a: nat, b: nat, q: nat)
    requires b >= 1 && q * b <= a < (q + 1) * b
    ensures a / b == q
  {
    var d, r := a / b, a % b;
    assert a == d * b + r && 0 <= r < b && (d + 1) * b == d * b + b;
    if d < q {
      MulLe(d + 1, q, b);
    } else if d > q {
      MulLe(q + 1, d, b);
    }
  }

  lemma QuotientBounds(a: nat, b: nat)
    requires b >= 1
    ensures a / b * b <= a < a / b * b + b
  {
  }

  lemma RoundsUp(a: nat, b: nat)
    requires a >= 1 && b >= 1
    ensures Spans(a, b, DivRoundUp(a, b))
  {
    var q := (a + b - 1) / b;
    QuotientBounds(a + b - 1, b);
    assert q >= 1;
    MulDist(q - 1, 1, b);
  }

  // Rounding up twice is rounding up once: the blocks of a component, in groups of its sampling factor, make as many
  // groups as the samples in groups of a whole MCU.
  lemma RoundsUpTwice(size: nat, factor: nat, unit: nat)
    requires size >= 1 && factor >= 1 && unit >= 1
    ensures Spans(DivRoundUp(size * factor, unit), factor, DivRoundUp(size, unit))
  {
    var q, u := DivRoundUp(size, unit), DivRoundUp(size * factor, unit);
    RoundsUp(size, unit);
    MulLe(1, size, factor);
    RoundsUp(size * factor, unit);
    assert (q - 1) * unit < size <= q * unit && (u - 1) * unit < size * factor <= u * unit;
    GroupsFit(size, factor, unit, q, u);
    GroupsNeeded(size, factor, unit, q, u);
  }

  lemma Swap(a: nat, b: nat, c: nat)
    ensures a * b * c == a * c * b
  {
    assert a * b * c == a * (b * c) == a * (c * b) == a * c * b;
  }

  lemma GroupsFit(size: nat, factor: nat, unit: nat, q: nat, u: nat)
    requires unit >= 1 && u >= 1 && size <= q * unit && (u - 1) * unit < size * factor
    ensures u <= q * factor
  {
    MulLe(size, q * unit, factor);
    Swap(q, unit, factor);
    if q * factor < u {
      MulLe(q * factor, u - 1, unit);
    }
  }

  lemma GroupsNeeded(size: nat, factor: nat, unit: nat, q: nat, u: nat)
    requires unit >= 1 && q >= 1 && factor >= 1 && (q - 1) * unit < size && size * factor <= u * unit
    ensures (q - 1) * factor < u
  {
    MulLess((q - 1) * unit, size, factor);
    Swap(q - 1, unit, factor);
    if u <= (q - 1) * factor {
      MulLe(u, (q - 1) * factor, unit);
    }
  }

  // ----- the image -----

  ghost predicate GoodDims(d: Dims) {
    d.comps != [] && forall c :: 0 <= c < |d.comps| ==> Spans(d.comps[c].width, d.comps[c].h, d.perRow) && Spans(d.comps[c].height, d.comps[c].v, d.rows)
  }

  predicate GoodFactors(l: Limits, s: Sampling) { 0 < s.h <= l.maxSampFactor && 0 < s.v <= l.maxSampFactor }

  ghost predicate GoodSize(l: Limits, width: nat, height: nat, samp: seq<Sampling>) {
    0 < width <= l.maxDimension && 0 < height <= l.maxDimension && 0 < |samp| <= l.maxComponents
  }

  // The largest of the sampling factors.
  ghost predicate IsMax(m: nat, factors: seq<int>) {
    m >= 1 && (forall c :: 0 <= c < |factors| ==> factors[c] <= m) && (m == 1 || m in factors)
  }

  ghost function FactorsAcross(samp: seq<Sampling>): seq<int> { seq(|samp|, c requires 0 <= c < |samp| => samp[c].h) }

  ghost function FactorsDown(samp: seq<Sampling>): seq<int> { seq(|samp|, c requires 0 <= c < |samp| => samp[c].v) }

  // The first loop of initial_setup
  method MaxFactors(l: Limits, samp: seq<Sampling>) returns (ok: bool, maxH: nat, maxV: nat)
    ensures ok <==> forall c :: 0 <= c < |samp| ==> GoodFactors(l, samp[c])
    ensures ok ==> IsMax(maxH, FactorsAcross(samp)) && IsMax(maxV, FactorsDown(samp))
  {
    ok, maxH, maxV := true, 1, 1;
    var ci := 0;
    while ci < |samp|
      invariant 0 <= ci <= |samp| && ok && forall c :: 0 <= c < ci ==> GoodFactors(l, samp[c])
      invariant IsMax(maxH, FactorsAcross(samp)[..ci]) && IsMax(maxV, FactorsDown(samp)[..ci])
    {
      if !GoodFactors(l, samp[ci]) {
        ok := false;
        return;
      }
      assert FactorsAcross(samp)[..ci + 1] == FactorsAcross(samp)[..ci] + [samp[ci].h];
      assert FactorsDown(samp)[..ci + 1] == FactorsDown(samp)[..ci] + [samp[ci].v];
      maxH := if samp[ci].h > maxH then samp[ci].h else maxH;
      maxV := if samp[ci].v > maxV then samp[ci].v else maxV;
      ci := ci + 1;
    }
    assert FactorsAcross(samp)[..ci] == FactorsAcross(samp) && FactorsDown(samp)[..ci] == FactorsDown(samp);
  }

  // A component is its share of the image in blocks of blockSize samples.
  ghost predicate IsShare(c: Component, s: Sampling, width: nat, height: nat, maxH: nat, maxV: nat, blockSize: nat)
    requires maxH >= 1 && maxV >= 1 && blockSize >= 1
  {
    && c.h == s.h && c.v == s.v && maxH * blockSize >= 1 && maxV * blockSize >= 1
    && c.width == DivRoundUp(width * c.h, maxH * blockSize) && c.height == DivRoundUp(height * c.v, maxV * blockSize)
  }

  lemma UnitPositive(m: nat, blockSize: nat)
    requires m >= 1 && blockSize >= 1
    ensures m * blockSize >= 1
  {
    MulLe(1, m, blockSize);
  }

  // initial_setup, on either side.
  method InitialSetup(l: Limits, width: nat, height: nat, blockSize: nat, samp: seq<Sampling>)
    returns (ok: bool, d: Dims, ghost maxH: nat, ghost maxV: nat)
    requires blockSize >= 1
    ensures ok <==> GoodSize(l, width, height, samp) && forall c :: 0 <= c < |samp| ==> GoodFactors(l, samp[c])
    ensures ok ==> GoodDims(d) && |d.comps| == |samp| && IsMax(maxH, FactorsAcross(samp)) && IsMax(maxV, FactorsDown(samp))
    ensures ok ==> forall c :: 0 <= c < |samp| ==> IsShare(d.comps[c], samp[c], width, height, maxH, maxV, blockSize)
  {
    ok, d, maxH, maxV := false, Dims(0, 0, []), 0, 0;
    if width == 0 || height == 0 || |samp| == 0 || width > l.maxDimension || height > l.maxDimension || |samp| > l.maxComponents {
      return;
    }
    var hMax, vMax;
    ok, hMax, vMax := MaxFactors(l, samp);
    maxH, maxV := hMax, vMax;
    if !ok {
      return;
    }
    hide IsMax, FactorsAcross, FactorsDown, Spans, DivRoundUp;
    UnitPositive(hMax, blockSize);
    UnitPositive(vMax, blockSize);
    var perRow, rows, comps := DivRoundUp(width, hMax * blockSize), DivRoundUp(height, vMax * blockSize), [];
    var ci := 0;
    while ci < |samp|
      invariant 0 <= ci <= |samp| && |comps| == ci
      invariant forall c :: 0 <= c < ci ==> IsShare(comps[c], samp[c], width, height, maxH, maxV, blockSize)
      invariant forall c :: 0 <= c < ci ==> Spans(comps[c].width, comps[c].h, perRow) && Spans(comps[c].height, comps[c].v, rows)
    {
      assert GoodFactors(l, samp[ci]);
      var h, v := samp[ci].h, samp[ci].v;
      RoundsUpTwice(width, h, hMax * blockSize);
      RoundsUpTwice(height, v, vMax * blockSize);
      comps := comps + [Component(h, v, DivRoundUp(width * h, hMax * blockSize), DivRoundUp(height * v, vMax * blockSize))];
      ci := ci + 1;
    }
    d := Dims(perRow, rows, comps);
  }

  // ----- the scan -----

  // A component in a scan: which one, its blocks in an MCU, and how many of them are real in the last column and row.
  datatype Part = Part(c: nat, mcuWidth: nat, mcuHeight: nat, lastColWidth: nat, lastRowHeight: nat)

  // What per_scan_setup leaves behind.
  datatype ScanGeom = ScanGeom(perRow: nat, parts: seq<Part>, membership: seq<nat>)

  // The number of blocks among n that are in the last group.
  ghost predicate Rest(n: nat, per: nat, total: nat, last: nat) {
    total >= 1 && 1 <= last <= per && n == Times(total - 1, per) + last
  }

  ghost predicate GoodPart(d: Dims, c: nat, single: bool, p: Part)
    requires c < |d.comps|
  {
    var comp := d.comps[c];
    && p.c == c && Rest(comp.height, comp.v, d.rows, p.lastRowHeight)
    && if single then p.mcuWidth == p.mcuHeight == p.lastColWidth == 1
       else p.mcuWidth == comp.h && p.mcuHeight == comp.v && Rest(comp.width, comp.h, d.perRow, p.lastColWidth)
  }

  // The membership list names each part once for each of its blocks.
  function Members(parts: seq<Part>): seq<nat> {
    if parts == [] then []
    else Members(parts[..|parts| - 1]) + seq(Times(parts[|parts| - 1].mcuWidth, parts[|parts| - 1].mcuHeight), _ => |parts| - 1)
  }

  ghost predicate GoodGeom(d: Dims, comps: seq<nat>, g: ScanGeom) {
    && comps != [] && |g.parts| == |comps| && (forall ci :: 0 <= ci < |comps| ==> comps[ci] < |d.comps| && GoodPart(d, comps[ci], |comps| == 1, g.parts[ci]))
    && g.perRow == (if |comps| == 1 then d.comps[comps[0]].width else d.perRow) && g.membership == Members(g.parts)
  }

  // n % per, or per when nothing is left.
  function LastOf(n: nat, per: nat): nat
    requires per >= 1
  {
    if n % per == 0 then per else n % per
  }

  lemma LastIsRest(n: nat, per: nat, total: nat)
    requires Spans(n, per, total)
    ensures Rest(n, per, total, LastOf(n, per))
  {
    var k := n - Times(total - 1, per);
    TimesNext(total - 1, per);
    assert 1 <= k <= per;
    if k == per {
      QuotientIs(n, per, total);
    } else {
      QuotientIs(n, per, total - 1);
    }
  }

  // The blocks of all the parts of an interleaved scan in one MCU.
  function TotalBlocks(d: Dims, comps: seq<nat>): nat
    requires forall ci :: 0 <= ci < |comps| ==> comps[ci] < |d.comps|
  {
    if comps == [] then 0
    else
      var c := d.comps[comps[|comps| - 1]];
      TotalBlocks(d, comps[..|comps| - 1]) + Times(c.h, c.v)
  }

  lemma {:induction false} TotalGrows(d: Dims, comps: seq<nat>, n: nat)
    requires n <= |comps| && forall ci :: 0 <= ci < |comps| ==> comps[ci] < |d.comps|
    ensures TotalBlocks(d, comps[..n]) <= TotalBlocks(d, comps)
    decreases |comps|
  {
    if n < |comps| {
      var shorter := comps[..|comps| - 1];
      assert shorter[..n] == comps[..n];
      TotalGrows(d, shorter, n);
    } else {
      assert comps[..n] == comps;
    }
  }

  // per_scan_setup, on either side. An interleaved scan has to fit into the limits; for a single component there are none.
  method PerScanSetup(l: Limits, d: Dims, comps: seq<nat>) returns (ok: bool, g: ScanGeom)
    requires GoodDims(d) && forall ci :: 0 <= ci < |comps| ==> comps[ci] < |d.comps|
    ensures ok <==> |comps| == 1 || (0 < |comps| <= l.maxCompsInScan && TotalBlocks(d, comps) <= l.maxBlocksInMcu)
    ensures ok ==> GoodGeom(d, comps, g)
  {
    hide Times, Rest, LastOf;
    if |comps| == 1 {
      var comp := d.comps[comps[0]];
      LastIsRest(comp.height, comp.v, d.rows);
      var p := Part(comps[0], 1, 1, 1, LastOf(comp.height, comp.v));
      SingleMember(p);
      return true, ScanGeom(comp.width, [p], [0]);
    }
    ok, g := false, ScanGeom(0, [], []);
    if |comps| == 0 || |comps| > l.maxCompsInScan {
      return;
    }
    var parts, membership, ci := [], [], 0;
    while ci < |comps|
      invariant 0 <= ci == |parts| <= |comps| && membership == Members(parts) && |membership| == TotalBlocks(d, comps[..ci])
      invariant forall c :: 0 <= c < ci ==> GoodPart(d, comps[c], false, parts[c])
      invariant ci > 0 ==> |membership| <= l.maxBlocksInMcu
    {
      var comp := d.comps[comps[ci]];
      LastIsRest(comp.width, comp.h, d.perRow);
      LastIsRest(comp.height, comp.v, d.rows);
      var mcublks := Times(comp.h, comp.v);
      assert comps[..ci + 1][..ci] == comps[..ci];
      if |membership| + mcublks > l.maxBlocksInMcu {
        TotalGrows(d, comps, ci + 1);
        return;
      }
      var p := Part(comps[ci], comp.h, comp.v, LastOf(comp.width, comp.h), LastOf(comp.height, comp.v));
      assert (parts + [p])[..ci] == parts;
      membership := AddMembers(membership, ci, mcublks);
      parts := parts + [p];
      ci := ci + 1;
    }
    assert comps[..ci] == comps;
    return true, ScanGeom(d.perRow, parts, membership);
  }

  lemma SingleMember(p: Part)
    requires p.mcuWidth == p.mcuHeight == 1
    ensures Members([p]) == [0]
  {
    assert [p][..0] == [] && Times(1, 1) == 1;
  }

  method AddMembers(membership: seq<nat>, ci: nat, mcublks: nat) returns (r: seq<nat>)
    ensures r == membership + seq(mcublks, _ => ci)
  {
    r := membership;
    var left := mcublks;
    while left > 0
      invariant 0 <= left <= mcublks && r == membership + seq(mcublks - left, _ => ci)
    {
      r, left := r + [ci], left - 1;
    }
  }
}
