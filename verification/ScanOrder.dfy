// The blocks of a scan come in the order that section A.2 of ITU-T T.81 asks for: MCUs in rows from top to bottom, from left to
// right within a row; components in turn within an MCU, and the blocks of a component in rows again.
module ScanOrder {
  import opened Numbers
  import opened Geometry
  import opened McuOrder

  // The row of MCUs that a block is in, and its place within that row.
  function McuRowOf(g: ScanGeom, p: Pos): nat
    requires p.ci < |g.parts| && g.parts[p.ci].mcuHeight >= 1
  {
    p.row / g.parts[p.ci].mcuHeight
  }

  function McuColOf(g: ScanGeom, p: Pos): nat
    requires p.ci < |g.parts| && g.parts[p.ci].mcuWidth >= 1
  {
    p.col / g.parts[p.ci].mcuWidth
  }

  ghost predicate Sized(g: ScanGeom) { forall ci :: 0 <= ci < |g.parts| ==> g.parts[ci].mcuHeight >= 1 && g.parts[ci].mcuWidth >= 1 }

  predicate InPart(p: Pos, q: Pos) { p.row < q.row || (p.row == q.row && p.col < q.col) }

  predicate InOne(p: Pos, q: Pos) { p.ci < q.ci || (p.ci == q.ci && InPart(p, q)) }

  // p comes before q.
  ghost predicate Before(g: ScanGeom, p: Pos, q: Pos) {
    && Sized(g) && p.ci < |g.parts| && q.ci < |g.parts|
    && (McuRowOf(g, p) < McuRowOf(g, q)
        || (McuRowOf(g, p) == McuRowOf(g, q) && (McuColOf(g, p) < McuColOf(g, q) || (McuColOf(g, p) == McuColOf(g, q) && InOne(p, q)))))
  }

  ghost predicate InTurn(g: ScanGeom, ps: seq<Pos>) { forall j, k :: 0 <= j < k < |ps| ==> Before(g, ps[j], ps[k]) }

  lemma InTurnConcat(g: ScanGeom, a: seq<Pos>, b: seq<Pos>)
    requires InTurn(g, a) && InTurn(g, b) && forall p, q :: p in a && q in b ==> Before(g, p, q)
    ensures InTurn(g, a + b)
  {
    hide Before;
    forall j, k | 0 <= j < k < |a + b|
      ensures Before(g, (a + b)[j], (a + b)[k])
    {
      if j < |a| <= k { assert a[j] in a && b[k - |a|] in b; }
    }
  }

  // ----- within an MCU -----

  ghost predicate Sorted(ps: seq<Pos>) { forall j, k :: 0 <= j < k < |ps| ==> InOne(ps[j], ps[k]) }

  lemma SortedConcat(a: seq<Pos>, b: seq<Pos>)
    requires Sorted(a) && Sorted(b) && forall p, q :: p in a && q in b ==> InOne(p, q)
    ensures Sorted(a + b)
  {
    hide InOne;
    forall j, k | 0 <= j < k < |a + b|
      ensures InOne((a + b)[j], (a + b)[k])
    {
      if j < |a| <= k { assert a[j] in a && b[k - |a|] in b; }
    }
  }

  lemma {:induction false} RowSorted(ci: nat, row: nat, col: nat, n: nat)
    ensures Sorted(RowBlocks(ci, row, col, n))
  {
    if n > 0 {
      RowSorted(ci, row, col, n - 1);
      RowOnce(ci, row, col, n - 1);
      SortedConcat(RowBlocks(ci, row, col, n - 1), [Pos(ci, row, col + n - 1)]);
    }
  }

  lemma {:induction false} PartSorted(ci: nat, row: nat, col: nat, width: nat, n: nat)
    ensures Sorted(PartBlocks(ci, row, col, width, n))
  {
    if n > 0 {
      PartSorted(ci, row, col, width, n - 1);
      PartOnce(ci, row, col, width, n - 1);
      RowSorted(ci, row + n - 1, col, width);
      RowOnce(ci, row + n - 1, col, width);
      SortedConcat(PartBlocks(ci, row, col, width, n - 1), RowBlocks(ci, row + n - 1, col, width));
    }
  }

  lemma {:induction false} McuSorted(d: Dims, g: ScanGeom, i: nat, y: nat, c: nat, n: nat)
    requires Known(d, g) && n <= |g.parts|
    ensures Sorted(McuParts(d, g, i, y, c, n))
  {
    hide Times, TopRow;
    if n > 0 {
      var q := g.parts[n - 1];
      McuSorted(d, g, i, y, c, n - 1);
      McuOnce(d, g, i, y, c, n - 1);
      PartSorted(n - 1, TopRow(d, q, i, y), Times(c, q.mcuWidth), q.mcuWidth, q.mcuHeight);
      PartOnce(n - 1, TopRow(d, q, i, y), Times(c, q.mcuWidth), q.mcuWidth, q.mcuHeight);
      SortedConcat(McuParts(d, g, i, y, c, n - 1), PartBlocks(n - 1, TopRow(d, q, i, y), Times(c, q.mcuWidth), q.mcuWidth, q.mcuHeight));
    }
  }

  // ----- MCUs -----

  lemma DivideBand(x: nat, m: nat, h: nat)
    requires h >= 1
    ensures x < Times(m, h) ==> x / h < m
    ensures x >= Times(m, h) ==> x / h >= m
    ensures Times(m, h) <= x < Times(m, h) + h ==> x / h == m
  {
    var q := x / h;
    assert x == q * h + x % h;
    if q < m { MulLe(q + 1, m, h); MulDist(q, 1, h); } else { MulLe(m, q, h); }
    if q > m { MulLe(m + 1, q, h); MulDist(m, 1, h); }
  }

  // Which row of MCUs that is.
  function RowNo(d: Dims, g: ScanGeom, i: nat, y: nat): nat
    requires Known(d, g)
  {
    if |g.parts| == 1 then TopRow(d, g.parts[0], i, y) else i
  }

  // What the geometry of a scan comes to: one component in MCUs of one block, or several in MCUs of their sampling factors.
  ghost predicate Shaped(d: Dims, g: ScanGeom) {
    && Known(d, g) && Sized(g) && OneOrFlat(g)
    && (|g.parts| == 1 ==> g.parts[0].mcuHeight == 1)
    && (|g.parts| != 1 ==> forall ci :: 0 <= ci < |g.parts| ==> g.parts[ci].mcuHeight == d.comps[g.parts[ci].c].v)
  }

  lemma GeomShaped(d: Dims, comps: seq<nat>, g: ScanGeom)
    requires GoodDims(d) && GoodGeom(d, comps, g)
    ensures Shaped(d, g)
  {
    GeomKnown(d, comps, g);
    forall ci | 0 <= ci < |g.parts|
      ensures g.parts[ci].mcuHeight >= 1 && g.parts[ci].mcuWidth >= 1 && (|g.parts| == 1 ==> g.parts[ci].mcuHeight == 1)
      ensures |g.parts| != 1 ==> g.parts[ci].mcuHeight == d.comps[g.parts[ci].c].v
    {
      assert GoodPart(d, comps[ci], |comps| == 1, g.parts[ci]);
    }
  }

  lemma RowOfBlock(d: Dims, g: ScanGeom, i: nat, y: nat, p: Pos)
    requires Shaped(d, g) && p.ci < |g.parts| && (|g.parts| != 1 ==> y == 0)
    requires TopRow(d, g.parts[p.ci], i, y) <= p.row < TopRow(d, g.parts[p.ci], i, y) + g.parts[p.ci].mcuHeight
    ensures McuRowOf(g, p) == RowNo(d, g, i, y)
  {
    hide Times;
    if |g.parts| != 1 { DivideBand(p.row, i, g.parts[p.ci].mcuHeight); }
  }

  lemma {:induction false} RowInTurn(d: Dims, g: ScanGeom, i: nat, y: nat, n: nat)
    requires Shaped(d, g) && (|g.parts| != 1 ==> y == 0)
    ensures InTurn(g, Blocks(McuRow(d, g, i, y, n)))
  {
    hide Times, TopRow, McuRowOf, RowNo, Shaped, Before;
    ShapedKnown(d, g);
    if n > 0 {
      var before, last := Blocks(McuRow(d, g, i, y, n - 1)), McuAt(d, g, i, y, n - 1);
      RowInTurn(d, g, i, y, n - 1);
      RowJoined(d, g, i, y, n - 1);
      McuInTurn(d, g, i, y, n - 1);
      McuOnce(d, g, i, y, n - 1, |g.parts|);
      JoinedConcat(McuRow(d, g, i, y, n - 1), [last]);
      JoinedOne(last);
      forall p, q | p in before && q in last
        ensures Before(g, p, q)
      {
        LeftOf(d, g, i, y, n - 1, p, q);
      }
      InTurnConcat(g, before, last);
    }
  }

  lemma ShapedKnown(d: Dims, g: ScanGeom)
    requires Shaped(d, g)
    ensures Known(d, g) && Sized(g) && OneOrFlat(g)
  {
  }

  lemma LeftOf(d: Dims, g: ScanGeom, i: nat, y: nat, c: nat, p: Pos, q: Pos)
    requires Shaped(d, g) && (|g.parts| != 1 ==> y == 0) && InRow(d, g, i, y, c, p) && InMcu(d, g, i, y, c, |g.parts|, q)
    ensures Before(g, p, q)
  {
    RowOfBlock(d, g, i, y, p);
    RowOfBlock(d, g, i, y, q);
    hide Times, TopRow, RowNo, McuRowOf;
    DivideBand(p.col, c, g.parts[p.ci].mcuWidth);
    DivideBand(q.col, c, g.parts[q.ci].mcuWidth);
  }

  lemma McuInTurn(d: Dims, g: ScanGeom, i: nat, y: nat, c: nat)
    requires Shaped(d, g) && (|g.parts| != 1 ==> y == 0)
    ensures InTurn(g, McuAt(d, g, i, y, c))
  {
    hide Times, TopRow, RowNo, McuRowOf;
    var ps := McuAt(d, g, i, y, c);
    McuSorted(d, g, i, y, c, |g.parts|);
    McuOnce(d, g, i, y, c, |g.parts|);
    forall j, k | 0 <= j < k < |ps|
      ensures Before(g, ps[j], ps[k])
    {
      assert ps[j] in ps && ps[k] in ps;
      InSameMcu(d, g, i, y, c, ps[j], ps[k]);
    }
  }

  lemma InSameMcu(d: Dims, g: ScanGeom, i: nat, y: nat, c: nat, p: Pos, q: Pos)
    requires Shaped(d, g) && (|g.parts| != 1 ==> y == 0) && InOne(p, q)
    requires InMcu(d, g, i, y, c, |g.parts|, p) && InMcu(d, g, i, y, c, |g.parts|, q)
    ensures Before(g, p, q)
  {
    RowOfBlock(d, g, i, y, p);
    RowOfBlock(d, g, i, y, q);
    hide Times, TopRow, RowNo, McuRowOf;
    DivideBand(p.col, c, g.parts[p.ci].mcuWidth);
    DivideBand(q.col, c, g.parts[q.ci].mcuWidth);
  }

  // ----- rows of MCUs -----

  lemma {:induction false} RowsInTurn(d: Dims, g: ScanGeom, i: nat, n: nat)
    requires Shaped(d, g) && (n > 1 ==> |g.parts| == 1)
    ensures InTurn(g, Blocks(McuRows(d, g, i, n)))
  {
    hide Times, McuRowOf, RowNo, Shaped, Before;
    ShapedKnown(d, g);
    if n > 0 {
      var before, last := McuRows(d, g, i, n - 1), McuRow(d, g, i, n - 1, g.perRow);
      RowsInTurn(d, g, i, n - 1);
      RowsJoined(d, g, i, n - 1);
      RowInTurn(d, g, i, n - 1, g.perRow);
      RowJoined(d, g, i, n - 1, g.perRow);
      JoinedConcat(before, last);
      forall p, q | p in Blocks(before) && q in Blocks(last)
        ensures Before(g, p, q)
      {
        AboveOf(d, g, i, n - 1, p, q);
      }
      InTurnConcat(g, Blocks(before), Blocks(last));
    }
  }

  lemma AboveOf(d: Dims, g: ScanGeom, i: nat, y: nat, p: Pos, q: Pos)
    requires Shaped(d, g) && (y > 0 ==> |g.parts| == 1) && InRows(d, g, i, y, p) && InRow(d, g, i, y, g.perRow, q)
    ensures Before(g, p, q)
  {
    if y == 0 { TimesNone(g.parts[p.ci].mcuHeight); } else { assert Times(y, 1) == y; }
  }

  // The whole scan.
  lemma {:induction false} ScanInTurn(d: Dims, comps: seq<nat>, g: ScanGeom, n: nat)
    requires GoodDims(d) && GoodGeom(d, comps, g) && n <= d.rows && Known(d, g)
    ensures InTurn(g, Blocks(ScanMcus(d, g, n)))
  {
    hide Times, TopRow, RowsIn, RowsUpTo, GoodGeom, GoodDims, Before, Shaped, InScan, InRows, NoneTwice, Sized, OneOrFlat;
    if n > 0 {
      GeomShaped(d, comps, g);
      ShapedKnown(d, g);
      var before, last := ScanMcus(d, g, n - 1), McuRows(d, g, n - 1, RowsIn(d, g, n - 1));
      ScanInTurn(d, comps, g, n - 1);
      ScanJoined(d, comps, g, n - 1);
      OneRowOnly(d, g, n - 1);
      RowsInTurn(d, g, n - 1, RowsIn(d, g, n - 1));
      RowsJoined(d, g, n - 1, RowsIn(d, g, n - 1));
      JoinedConcat(before, last);
      forall p, q | p in Blocks(before) && q in Blocks(last)
        ensures Before(g, p, q)
      {
        FarAbove(d, comps, g, n, p, q);
      }
      InTurnConcat(g, Blocks(before), Blocks(last));
    }
  }

  lemma FarAbove(d: Dims, comps: seq<nat>, g: ScanGeom, n: nat, p: Pos, q: Pos)
    requires GoodDims(d) && GoodGeom(d, comps, g) && 1 <= n <= d.rows && Shaped(d, g)
    requires InScan(d, g, n - 1, p) && InRows(d, g, n - 1, RowsIn(d, g, n - 1), q)
    ensures Before(g, p, q)
  {
    RowsFollow(d, comps, g, p.ci, n);
    RowsFollow(d, comps, g, q.ci, n);
    hide Times, RowsIn, RowsUpTo, GoodGeom, GoodDims;
    if |g.parts| != 1 {
      DivideBand(p.row, n - 1, g.parts[p.ci].mcuHeight);
      DivideBand(q.row, n - 1, g.parts[q.ci].mcuHeight);
    }
  }

  lemma AllInTurn(d: Dims, comps: seq<nat>, g: ScanGeom)
    requires GoodDims(d) && GoodGeom(d, comps, g)
    ensures Known(d, g) && InTurn(g, Blocks(AllMcus(d, g)))
  {
    GeomKnown(d, comps, g);
    ScanInTurn(d, comps, g, d.rows);
  }
}
