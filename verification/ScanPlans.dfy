// From the geometry of a scan to the blocks that the entropy coders visit: numbering, restart intervals.
module ScanPlans {
  import opened Geometry
  import opened McuOrder
  import opened Scans
  import opened ScanScript
  import opened Telescope
  import opened HuffWhole
  import opened HuffDecodeScan
  import opened HuffSymbols
  import opened HuffTransmission

  // ----- numbering the blocks of the full-image arrays -----

  function Across(d: Dims, c: nat): nat
    requires c < |d.comps|
  {
    Times(d.perRow, d.comps[c].h)
  }

  function PlaneSize(d: Dims, c: nat): nat
    requires c < |d.comps|
  {
    Times(Times(d.rows, d.comps[c].v), Across(d, c))
  }

  // Component by component, row by row.
  function Base(d: Dims, c: nat): nat
    requires c <= |d.comps|
  {
    if c == 0 then 0 else Base(d, c - 1) + PlaneSize(d, c - 1)
  }

  function Index(d: Dims, c: nat, row: nat, col: nat): nat
    requires c < |d.comps|
  {
    Base(d, c) + Times(row, Across(d, c)) + col
  }

  // The place is in the array of component c.
  predicate Fitting(d: Dims, c: nat, row: nat, col: nat) {
    c < |d.comps| && row < Times(d.rows, d.comps[c].v) && col < Across(d, c)
  }

  lemma IndexBounds(d: Dims, c: nat, row: nat, col: nat)
    requires Fitting(d, c, row, col)
    ensures Base(d, c) <= Index(d, c, row, col) < Base(d, c) + PlaneSize(d, c)
  {
    hide Times;
    TimesNext(row, Across(d, c));
    TimesMono(row + 1, Times(d.rows, d.comps[c].v), Across(d, c));
  }

  lemma {:induction false} BaseGrows(d: Dims, b: nat, c: nat)
    requires b < c <= |d.comps|
    ensures Base(d, b) + PlaneSize(d, b) <= Base(d, c)
  {
    if b + 1 < c { BaseGrows(d, b, c - 1); }
  }

  // No two places have the same number.
  lemma IndexOnce(d: Dims, c: nat, row: nat, col: nat, c': nat, row': nat, col': nat)
    requires Fitting(d, c, row, col) && Fitting(d, c', row', col') && Index(d, c, row, col) == Index(d, c', row', col')
    ensures c == c' && row == row' && col == col'
  {
    hide Times, PlaneSize;
    IndexBounds(d, c, row, col);
    IndexBounds(d, c', row', col');
    if c < c' { BaseGrows(d, c, c'); }
    if c' < c { BaseGrows(d, c', c); }
    if row < row' {
      TimesNext(row, Across(d, c));
      TimesMono(row + 1, row', Across(d, c));
    }
    if row' < row {
      TimesNext(row', Across(d, c));
      TimesMono(row' + 1, row, Across(d, c));
    }
  }

  function ComponentOf(d: Dims, n: nat): seq<nat>
    requires n <= |d.comps|
  {
    if n == 0 then [] else ComponentOf(d, n - 1) + seq(PlaneSize(d, n - 1), _ => n - 1)
  }

  // Block k of a component's array is part of the image.
  predicate RealAt(d: Dims, c: nat, k: nat)
    requires c < |d.comps| && Across(d, c) >= 1
  {
    k / Across(d, c) < d.comps[c].height && k % Across(d, c) < d.comps[c].width
  }

  function RealFlags(d: Dims, n: nat): seq<bool>
    requires n <= |d.comps|
  {
    if n == 0 then []
    else RealFlags(d, n - 1) + seq(PlaneSize(d, n - 1), k requires 0 <= k => Across(d, n - 1) >= 1 && RealAt(d, n - 1, k))
  }

  function LayoutOf(d: Dims): Layout { Layout(ComponentOf(d, |d.comps|), RealFlags(d, |d.comps|)) }

  lemma {:induction false} LayoutFits(d: Dims, n: nat)
    requires n <= |d.comps|
    ensures |ComponentOf(d, n)| == |RealFlags(d, n)| == Base(d, n)
    ensures forall b :: 0 <= b < Base(d, n) ==> ComponentOf(d, n)[b] < n
  {
    hide PlaneSize;
    if n > 0 { LayoutFits(d, n - 1); }
  }

  lemma {:induction false} StartsBefore(d: Dims, n: nat, b: nat)
    requires n <= |d.comps| && b < Base(d, n)
    ensures |ComponentOf(d, n)| == Base(d, n) && ComponentOf(d, n)[b] < n && Base(d, ComponentOf(d, n)[b]) <= b
  {
    hide PlaneSize;
    LayoutFits(d, n);
    LayoutFits(d, n - 1);
    if b < Base(d, n - 1) { StartsBefore(d, n - 1, b); }
  }

  // The layout at the number of a place.
  lemma {:induction false} LayoutAt(d: Dims, n: nat, c: nat, row: nat, col: nat)
    requires n <= |d.comps| && c < n && Fitting(d, c, row, col)
    ensures |ComponentOf(d, n)| == |RealFlags(d, n)| == Base(d, n) && Index(d, c, row, col) < Base(d, n)
    ensures ComponentOf(d, n)[Index(d, c, row, col)] == c
    ensures RealFlags(d, n)[Index(d, c, row, col)] <==> row < d.comps[c].height && col < d.comps[c].width
  {
    hide Times, PlaneSize;
    LayoutFits(d, n);
    LayoutFits(d, n - 1);
    IndexBounds(d, c, row, col);
    if c < n - 1 {
      LayoutAt(d, n - 1, c, row, col);
    } else {
      var k := Index(d, c, row, col) - Base(d, c);
      RowOf(row, Across(d, c), col);
      assert RealAt(d, c, k) <==> row < d.comps[c].height && col < d.comps[c].width;
    }
  }

  lemma RowOf(row: nat, width: nat, col: nat)
    requires col < width
    ensures (Times(row, width) + col) / width == row && (Times(row, width) + col) % width == col
  {
    QuotientIs(Times(row, width) + col, width, row);
  }

  // Every number is that of a place.
  lemma {:induction false} PlaceOf(d: Dims, n: nat, b: nat) returns (c: nat, row: nat, col: nat)
    requires n <= |d.comps| && b < Base(d, n)
    ensures c < n && Fitting(d, c, row, col) && b == Index(d, c, row, col)
  {
    if b < Base(d, n - 1) {
      c, row, col := PlaceOf(d, n - 1, b);
    } else {
      c := n - 1;
      var k, width := b - Base(d, c), Across(d, c);
      row, col := k / width, k % width;
      QuotientBounds(k, width);
      hide Across;
      if row >= Times(d.rows, d.comps[c].v) { TimesMono(Times(d.rows, d.comps[c].v), row, width); }
    }
  }

  // ----- the blocks as the entropy coders know them -----

  ghost predicate OfPart(d: Dims, g: ScanGeom, p: Pos) { p.ci < |g.parts| && g.parts[p.ci].c < |d.comps| }

  ghost predicate AllKnown(d: Dims, g: ScanGeom, ps: seq<Pos>) { forall k :: 0 <= k < |ps| ==> OfPart(d, g, ps[k]) }

  function VisitOf(d: Dims, g: ScanGeom, p: Pos): Visit
    requires p.ci < |g.parts| && g.parts[p.ci].c < |d.comps|
  {
    Visit(p.ci, Index(d, g.parts[p.ci].c, p.row, p.col))
  }

  function McuOf(d: Dims, g: ScanGeom, ps: seq<Pos>): (mcu: Mcu)
    requires AllKnown(d, g, ps)
    ensures |mcu| == |ps| && forall k :: 0 <= k < |ps| ==> mcu[k] == VisitOf(d, g, ps[k])
  {
    seq(|ps|, k requires 0 <= k < |ps| => VisitOf(d, g, ps[k]))
  }

  function McusOf(d: Dims, g: ScanGeom, mcus: seq<McuPos>): (r: seq<Mcu>)
    requires forall m :: 0 <= m < |mcus| ==> AllKnown(d, g, mcus[m])
    ensures |r| == |mcus| && forall m :: 0 <= m < |mcus| ==> r[m] == McuOf(d, g, mcus[m])
  {
    seq(|mcus|, m requires 0 <= m < |mcus| => McuOf(d, g, mcus[m]))
  }

  lemma {:induction false} BlocksKnown(d: Dims, g: ScanGeom, mcus: seq<McuPos>)
    requires forall m :: 0 <= m < |mcus| ==> AllKnown(d, g, mcus[m])
    ensures AllKnown(d, g, Blocks(mcus)) && Flat(McusOf(d, g, mcus)) == McuOf(d, g, Blocks(mcus))
  {
    if mcus != [] {
      BlocksKnown(d, g, mcus[1..]);
      assert McusOf(d, g, mcus)[1..] == McusOf(d, g, mcus[1..]);
    }
  }

  // ----- restart intervals -----

  // interval MCUs at a time; 0 is no restarts.
  function Chop(mcus: seq<Mcu>, interval: nat): (plan: Plan)
    ensures plan != []
    decreases |mcus|
  {
    if interval == 0 || |mcus| <= interval then [mcus] else [mcus[..interval]] + Chop(mcus[interval..], interval)
  }

  lemma {:induction false} FlatConcat(a: seq<Mcu>, b: seq<Mcu>)
    ensures Flat(a + b) == Flat(a) + Flat(b)
  {
    if a == [] {
      assert a + b == b;
    } else {
      assert (a + b)[1..] == a[1..] + b;
      FlatConcat(a[1..], b);
    }
  }

  // Restarts change neither the blocks nor their order.
  lemma {:induction false} ChopKeeps(mcus: seq<Mcu>, interval: nat)
    ensures Flat(Segments(Chop(mcus, interval))) == Flat(mcus)
    decreases |mcus|
  {
    var plan := Chop(mcus, interval);
    if interval == 0 || |mcus| <= interval {
      assert Segments(plan)[1..] == [];
    } else {
      ChopKeeps(mcus[interval..], interval);
      assert Segments(plan)[1..] == Segments(plan[1..]);
      FlatConcat(mcus[..interval], mcus[interval..]);
      assert mcus[..interval] + mcus[interval..] == mcus;
    }
  }

  // Every segment but the last has just as many MCUs as the interval says, and the last has no more.
  lemma {:induction false} ChopSizes(mcus: seq<Mcu>, interval: nat)
    requires interval > 0
    ensures var plan := Chop(mcus, interval);
      && (forall i :: 0 <= i < |plan| - 1 ==> |plan[i]| == interval)
      && |plan[|plan| - 1]| <= interval && (mcus != [] ==> plan[|plan| - 1] != [])
    decreases |mcus|
  {
    if |mcus| > interval {
      var plan := Chop(mcus, interval);
      ChopSizes(mcus[interval..], interval);
      assert plan[1..] == Chop(mcus[interval..], interval);
      forall i | 0 <= i < |plan| - 1
        ensures |plan[i]| == interval
      {
        if i > 0 { assert plan[i] == plan[1..][i - 1]; }
      }
    }
  }

  lemma {:induction false} ChopMembers(mcus: seq<Mcu>, interval: nat)
    ensures forall i, m :: 0 <= i < |Chop(mcus, interval)| && 0 <= m < |Chop(mcus, interval)[i]| ==> Chop(mcus, interval)[i][m] in mcus
    decreases |mcus|
  {
    if interval != 0 && |mcus| > interval {
      ChopMembers(mcus[interval..], interval);
      var plan := Chop(mcus, interval);
      assert plan[1..] == Chop(mcus[interval..], interval);
      forall i, m | 0 <= i < |plan| && 0 <= m < |plan[i]|
        ensures plan[i][m] in mcus
      {
        if i > 0 { assert plan[i] == plan[1..][i - 1] && plan[i][m] in mcus[interval..]; }
      }
    }
  }

  // ----- the plan of a scan -----

  ghost predicate GeomFor(d: Dims, s: ScanInfo, g: ScanGeom) {
    exists comps :: GoodGeom(d, comps, g) && SameComps(comps, s)
  }

  ghost predicate SameComps(comps: seq<nat>, s: ScanInfo) {
    |comps| == |s.comps| && forall i :: 0 <= i < |comps| ==> comps[i] == s.comps[i]
  }

  lemma McusKnown(d: Dims, comps: seq<nat>, g: ScanGeom)
    requires GoodDims(d) && GoodGeom(d, comps, g)
    ensures Known(d, g) && forall m :: 0 <= m < |AllMcus(d, g)| ==> AllKnown(d, g, AllMcus(d, g)[m])
  {
    EachBlockOnce(d, comps, g);
    var mcus := AllMcus(d, g);
    forall m, k | 0 <= m < |mcus| && 0 <= k < |mcus[m]|
      ensures OfPart(d, g, mcus[m][k])
    {
      BlockAmong(mcus, m, k);
      assert Belongs(d, g, mcus[m][k]);
    }
  }

  lemma {:induction false} BlockAmong(mcus: seq<McuPos>, m: nat, k: nat)
    requires m < |mcus| && k < |mcus[m]|
    ensures mcus[m][k] in Blocks(mcus)
  {
    if m > 0 { BlockAmong(mcus[1..], m - 1, k); }
  }

  // What the coefficient controllers hand to the entropy coders, between restarts.
  function PlanOf(d: Dims, g: ScanGeom, interval: nat): (plan: Plan)
    requires Known(d, g) && forall m :: 0 <= m < |AllMcus(d, g)| ==> AllKnown(d, g, AllMcus(d, g)[m])
    ensures plan != []
  {
    Chop(McusOf(d, g, AllMcus(d, g)), interval)
  }

  lemma PlanBlocks(d: Dims, comps: seq<nat>, g: ScanGeom, interval: nat)
    requires GoodDims(d) && GoodGeom(d, comps, g)
    ensures Known(d, g) && forall m :: 0 <= m < |AllMcus(d, g)| ==> AllKnown(d, g, AllMcus(d, g)[m])
    ensures AllKnown(d, g, Blocks(AllMcus(d, g)))
    ensures Flat(Segments(PlanOf(d, g, interval))) == McuOf(d, g, Blocks(AllMcus(d, g)))
  {
    McusKnown(d, comps, g);
    BlocksKnown(d, g, AllMcus(d, g));
    ChopKeeps(McusOf(d, g, AllMcus(d, g)), interval);
  }

  ghost predicate Ascending(comps: seq<nat>) {
    forall i, j :: 0 <= i < j < |comps| ==> comps[i] < comps[j]
  }

  lemma PlaceOfBlock(d: Dims, comps: seq<nat>, g: ScanGeom, p: Pos)
    requires GoodDims(d) && GoodGeom(d, comps, g) && Known(d, g) && Belongs(d, g, p)
    ensures p.ci < |comps| && g.parts[p.ci].c == comps[p.ci] && Fitting(d, comps[p.ci], p.row, p.col)
    ensures |comps| == 1 ==> p.row < d.comps[comps[p.ci]].height && p.col < d.comps[comps[p.ci]].width
  {
    assert GoodPart(d, comps[p.ci], |comps| == 1, g.parts[p.ci]);
    hide Times, Rest;
    assert Spans(d.comps[comps[p.ci]].width, d.comps[comps[p.ci]].h, d.perRow);
  }

  // No block twice.
  lemma PlanDistinct(d: Dims, comps: seq<nat>, g: ScanGeom)
    requires GoodDims(d) && GoodGeom(d, comps, g) && Known(d, g) && Ascending(comps) && AllKnown(d, g, Blocks(AllMcus(d, g)))
    ensures Distinct(McuOf(d, g, Blocks(AllMcus(d, g))))
  {
    hide GoodDims, GoodGeom, AllMcus, Belongs;
    var ps := Blocks(AllMcus(d, g));
    EachBlockOnce(d, comps, g);
    forall j, k | 0 <= j < k < |ps|
      ensures VisitOf(d, g, ps[j]).blk != VisitOf(d, g, ps[k]).blk
    {
      assert ps[j] in ps && ps[k] in ps && ps[j] != ps[k];
      PlaceOfBlock(d, comps, g, ps[j]);
      PlaceOfBlock(d, comps, g, ps[k]);
      var p, q := ps[j], ps[k];
      if VisitOf(d, g, p).blk == VisitOf(d, g, q).blk {
        IndexOnce(d, comps[p.ci], p.row, p.col, comps[q.ci], q.row, q.col);
      }
    }
  }

  // Every real block of the scan's components; a scan of one component has no others.
  lemma PlanCovers(d: Dims, comps: seq<nat>, g: ScanGeom, s: ScanInfo)
    requires GoodDims(d) && GoodGeom(d, comps, g) && Known(d, g) && AllKnown(d, g, Blocks(AllMcus(d, g)))
    requires SameComps(comps, s) && (s.ss != 0 ==> |comps| == 1) && |LayoutOf(d).comp| == |LayoutOf(d).isReal|
    ensures Covers(LayoutOf(d), s, McuOf(d, g, Blocks(AllMcus(d, g))))
  {
    hide GoodDims, GoodGeom, AllMcus, Belongs, Index, Across, ComponentOf, RealFlags;
    var ps, n, lay := Blocks(AllMcus(d, g)), |d.comps|, LayoutOf(d);
    EachBlockOnce(d, comps, g);
    forall k | 0 <= k < |ps|
      ensures var v := VisitOf(d, g, ps[k]);
        v.blk < |lay.comp| && v.ci < |s.comps| && s.comps[v.ci] == lay.comp[v.blk] && (s.ss != 0 ==> lay.isReal[v.blk])
    {
      assert ps[k] in ps;
      PlaceOfBlock(d, comps, g, ps[k]);
      LayoutAt(d, n, comps[ps[k].ci], ps[k].row, ps[k].col);
    }
    forall b | 0 <= b < |lay.comp| && lay.isReal[b] && lay.comp[b] in s.comps
      ensures exists k :: 0 <= k < |ps| && McuOf(d, g, ps)[k].blk == b
    {
      LayoutFits(d, n);
      var c, row, col := PlaceOf(d, n, b);
      LayoutAt(d, n, c, row, col);
      var ci :| 0 <= ci < |s.comps| && s.comps[ci] == lay.comp[b];
      RealBelongs(d, comps, g, ci, row, col);
      var k :| 0 <= k < |ps| && ps[k] == Pos(ci, row, col);
      assert McuOf(d, g, ps)[k].blk == b;
    }
  }

  lemma RealBelongs(d: Dims, comps: seq<nat>, g: ScanGeom, ci: nat, row: nat, col: nat)
    requires GoodDims(d) && GoodGeom(d, comps, g) && Known(d, g) && ci < |comps| && Fitting(d, comps[ci], row, col)
    requires row < d.comps[comps[ci]].height && col < d.comps[comps[ci]].width
    ensures Belongs(d, g, Pos(ci, row, col)) && g.parts[ci].c == comps[ci]
  {
    hide Times, Rest;
    assert GoodPart(d, comps[ci], |comps| == 1, g.parts[ci]);
  }

  lemma {:induction false} FlatHas(segments: seq<seq<Visit>>, k: nat) returns (i: nat, j: nat)
    requires k < |Flat(segments)|
    ensures i < |segments| && j < |segments[i]| && segments[i][j] == Flat(segments)[k]
  {
    if k < |segments[0]| {
      i, j := 0, k;
    } else {
      i, j := FlatHas(segments[1..], k - |segments[0]|);
      i := i + 1;
    }
  }

  lemma PlanHasBlocks(d: Dims, comps: seq<nat>, g: ScanGeom, plan: Plan, ci: nat)
    requires GoodDims(d) && GoodGeom(d, comps, g) && Known(d, g) && AllKnown(d, g, Blocks(AllMcus(d, g))) && ci < |comps|
    requires Flat(Segments(plan)) == McuOf(d, g, Blocks(AllMcus(d, g)))
    ensures HasBlock(Segments(plan), |plan|, ci)
  {
    hide GoodDims, AllMcus, GoodPart, Index;
    var ps := Blocks(AllMcus(d, g));
    EachBlockOnce(d, comps, g);
    FirstBelongs(d, comps, g, ci);
    var k :| 0 <= k < |ps| && ps[k] == Pos(ci, 0, 0);
    var i, j := FlatHas(Segments(plan), k);
    assert HasBlockIn(Segments(plan)[i], ci);
  }

  lemma FirstBelongs(d: Dims, comps: seq<nat>, g: ScanGeom, ci: nat)
    requires GoodDims(d) && GoodGeom(d, comps, g) && Known(d, g) && ci < |comps|
    ensures Belongs(d, g, Pos(ci, 0, 0))
  {
    hide Times, Rest;
    assert GoodPart(d, comps[ci], |comps| == 1, g.parts[ci]);
    assert Spans(d.comps[comps[ci]].width, d.comps[comps[ci]].h, d.perRow) && Spans(d.comps[comps[ci]].height, d.comps[comps[ci]].v, d.rows);
  }

  // An MCU of a scan of one component is one block.
  lemma OneBlock(d: Dims, comps: seq<nat>, g: ScanGeom, m: nat)
    requires GoodDims(d) && GoodGeom(d, comps, g) && Known(d, g) && |comps| == 1 && m < |AllMcus(d, g)|
    ensures |AllMcus(d, g)[m]| == 1
  {
    assert GoodPart(d, comps[0], true, g.parts[0]);
    var i, y, c := WhichMcu(d, g, d.rows, m);
    assert Times(1, 1) == 1;
    hide Times, GoodDims, GoodGeom;
    var p := g.parts[0];
    assert AllMcus(d, g)[m] == McuParts(d, g, i, y, c, 0) + PartBlocks(0, TopRow(d, p, i, y), Times(c, 1), 1, 1);
    assert PartBlocks(0, TopRow(d, p, i, y), Times(c, 1), 1, 1) == RowBlocks(0, TopRow(d, p, i, y), Times(c, 1), 1);
  }

  lemma {:induction false} WhichMcu(d: Dims, g: ScanGeom, n: nat, m: nat) returns (i: nat, y: nat, c: nat)
    requires Known(d, g) && m < |ScanMcus(d, g, n)|
    ensures ScanMcus(d, g, n)[m] == McuAt(d, g, i, y, c)
  {
    hide McuAt, RowsIn;
    var before := ScanMcus(d, g, n - 1);
    if m < |before| {
      i, y, c := WhichMcu(d, g, n - 1, m);
    } else {
      i := n - 1;
      y, c := WhichInRows(d, g, i, RowsIn(d, g, i), m - |before|);
    }
  }

  lemma {:induction false} WhichInRows(d: Dims, g: ScanGeom, i: nat, n: nat, m: nat) returns (y: nat, c: nat)
    requires Known(d, g) && m < |McuRows(d, g, i, n)|
    ensures McuRows(d, g, i, n)[m] == McuAt(d, g, i, y, c)
  {
    hide McuAt;
    var before := McuRows(d, g, i, n - 1);
    if m < |before| {
      y, c := WhichInRows(d, g, i, n - 1, m);
    } else {
      y, c := n - 1, m - |before|;
      RowAt(d, g, i, y, g.perRow, c);
    }
  }

  lemma {:induction false} RowAt(d: Dims, g: ScanGeom, i: nat, y: nat, n: nat, c: nat)
    requires Known(d, g) && c < n
    ensures McuRow(d, g, i, y, n)[c] == McuAt(d, g, i, y, c)
  {
    hide McuAt;
    if c < n - 1 { RowAt(d, g, i, y, n - 1, c); }
  }

  // Everything the entropy coders ask of the plan of a scan.
  lemma PlanServes(d: Dims, comps: seq<nat>, g: ScanGeom, s: ScanInfo, interval: nat)
    requires GoodDims(d) && GoodGeom(d, comps, g) && SameComps(comps, s) && GoodComps(|d.comps|, s) && (s.ss > 0 ==> |comps| == 1) && s.ss >= 0
    ensures Known(d, g) && forall m :: 0 <= m < |AllMcus(d, g)| ==> AllKnown(d, g, AllMcus(d, g)[m])
    ensures var plan := PlanOf(d, g, interval); var visits := Flat(Segments(plan));
      GoodShape(s, plan) && Distinct(visits) && |LayoutOf(d).comp| == |LayoutOf(d).isReal| && Covers(LayoutOf(d), s, visits)
  {
    PlanBlocks(d, comps, g, interval);
    Sorted(comps, s, |d.comps|);
    hide GoodDims, GoodGeom, AllMcus, Distinct, Covers;
    PlanDistinct(d, comps, g);
    LayoutFits(d, |d.comps|);
    PlanCovers(d, comps, g, s);
    var mcus := McusOf(d, g, AllMcus(d, g));
    var plan := Chop(mcus, interval);
    forall ci | 0 <= ci < |s.comps|
      ensures HasBlock(Segments(plan), |plan|, ci)
    {
      PlanHasBlocks(d, comps, g, plan, ci);
    }
    if s.ss > 0 {
      ChopMembers(mcus, interval);
      forall i, m | 0 <= i < |plan| && 0 <= m < |plan[i]|
        ensures |plan[i][m]| == 1
      {
        var k :| 0 <= k < |mcus| && mcus[k] == plan[i][m];
        OneBlock(d, comps, g, k);
      }
    }
  }

  lemma Sorted(comps: seq<nat>, s: ScanInfo, n: nat)
    requires SameComps(comps, s) && GoodComps(n, s)
    ensures Ascending(comps)
  {
    forall i, j | 0 <= i < j < |comps|
      ensures comps[i] < comps[j]
    {
      Step(comps, s, n, i, j);
    }
  }

  lemma {:induction false} Step(comps: seq<nat>, s: ScanInfo, n: nat, i: nat, j: nat)
    requires SameComps(comps, s) && GoodComps(n, s) && i < j < |comps|
    ensures comps[i] < comps[j]
  {
    assert s.comps[j - 1] < s.comps[j];
    if i < j - 1 { Step(comps, s, n, i, j - 1); }
  }
}
