// The order in which a scan visits its blocks: blocks within MCUs, MCUs within rows, rows within the image.
module McuOrder {
  import opened Geometry

  // A block: the part of the scan it belongs to, and its place among the blocks of its component.
  datatype Pos = Pos(ci: nat, row: nat, col: nat)

  type McuPos = seq<Pos>

  // ----- the blocks of an MCU -----

  function RowBlocks(ci: nat, row: nat, col: nat, n: nat): seq<Pos> {
    if n == 0 then [] else RowBlocks(ci, row, col, n - 1) + [Pos(ci, row, col + n - 1)]
  }

  function PartBlocks(ci: nat, row: nat, col: nat, width: nat, n: nat): seq<Pos> {
    if n == 0 then [] else PartBlocks(ci, row, col, width, n - 1) + RowBlocks(ci, row + n - 1, col, width)
  }

  // The first block row of part p in MCU row y of iMCU row i.
  function TopRow(d: Dims, p: Part, i: nat, y: nat): nat
    requires p.c < |d.comps|
  {
    Times(i, d.comps[p.c].v) + y
  }

  ghost predicate Known(d: Dims, g: ScanGeom) {
    forall ci :: 0 <= ci < |g.parts| ==> g.parts[ci].c < |d.comps|
  }

  // The blocks of the first n parts in MCU c of that row.
  function McuParts(d: Dims, g: ScanGeom, i: nat, y: nat, c: nat, n: nat): McuPos
    requires Known(d, g) && n <= |g.parts|
  {
    if n == 0 then []
    else
      var p := g.parts[n - 1];
      McuParts(d, g, i, y, c, n - 1) + PartBlocks(n - 1, TopRow(d, p, i, y), Times(c, p.mcuWidth), p.mcuWidth, p.mcuHeight)
  }

  function McuAt(d: Dims, g: ScanGeom, i: nat, y: nat, c: nat): McuPos
    requires Known(d, g)
  {
    McuParts(d, g, i, y, c, |g.parts|)
  }

  // ----- the MCUs of a scan -----

  // The first n MCUs of MCU row y of iMCU row i.
  function McuRow(d: Dims, g: ScanGeom, i: nat, y: nat, n: nat): (r: seq<McuPos>)
    requires Known(d, g)
    ensures |r| == n
  {
    if n == 0 then [] else McuRow(d, g, i, y, n - 1) + [McuAt(d, g, i, y, n - 1)]
  }

  // The first n MCU rows of iMCU row i.
  function McuRows(d: Dims, g: ScanGeom, i: nat, n: nat): seq<McuPos>
    requires Known(d, g)
  {
    if n == 0 then [] else McuRows(d, g, i, n - 1) + McuRow(d, g, i, n - 1, g.perRow)
  }

  // MCU_rows_per_iMCU_row of iMCU row i.
  function RowsIn(d: Dims, g: ScanGeom, i: nat): nat
    requires Known(d, g)
  {
    if |g.parts| != 1 then 1
    else if i + 1 < d.rows then d.comps[g.parts[0].c].v
    else g.parts[0].lastRowHeight
  }

  // The MCUs of the first n iMCU rows.
  function ScanMcus(d: Dims, g: ScanGeom, n: nat): seq<McuPos>
    requires Known(d, g)
  {
    if n == 0 then [] else ScanMcus(d, g, n - 1) + McuRows(d, g, n - 1, RowsIn(d, g, n - 1))
  }

  function AllMcus(d: Dims, g: ScanGeom): seq<McuPos>
    requires Known(d, g)
  {
    ScanMcus(d, g, d.rows)
  }

  // ----- every block once -----

  function Blocks(mcus: seq<McuPos>): seq<Pos> {
    if mcus == [] then [] else mcus[0] + Blocks(mcus[1..])
  }

  lemma {:induction false} JoinedConcat(a: seq<McuPos>, b: seq<McuPos>)
    ensures Blocks(a + b) == Blocks(a) + Blocks(b)
  {
    if a == [] {
      assert a + b == b;
    } else {
      assert (a + b)[1..] == a[1..] + b;
      JoinedConcat(a[1..], b);
    }
  }

  lemma JoinedOne(m: McuPos)
    ensures Blocks([m]) == m
  {
    assert [m][1..] == [];
  }

  ghost predicate NoneTwice(ps: seq<Pos>) {
    forall j, k :: 0 <= j < k < |ps| ==> ps[j] != ps[k]
  }

  lemma NoneTwiceConcat(a: seq<Pos>, b: seq<Pos>)
    requires NoneTwice(a) && NoneTwice(b) && forall p :: p in a ==> p !in b
    ensures NoneTwice(a + b)
  {
    forall j, k | 0 <= j < k < |a + b|
      ensures (a + b)[j] != (a + b)[k]
    {
      if j < |a| <= k { assert a[j] in a && b[k - |a|] in b; }
    }
  }

  // A rectangle of blocks.
  ghost predicate Within(p: Pos, ci: nat, row: nat, rows: nat, col: nat, cols: nat) {
    p.ci == ci && row <= p.row < row + rows && col <= p.col < col + cols
  }

  lemma {:induction false} RowOnce(ci: nat, row: nat, col: nat, n: nat)
    ensures NoneTwice(RowBlocks(ci, row, col, n))
    ensures forall p :: p in RowBlocks(ci, row, col, n) <==> Within(p, ci, row, 1, col, n)
  {
    if n > 0 {
      var p := Pos(ci, row, col + n - 1);
      RowOnce(ci, row, col, n - 1);
      NoneTwiceConcat(RowBlocks(ci, row, col, n - 1), [p]);
      forall q
        ensures q in RowBlocks(ci, row, col, n) <==> Within(q, ci, row, 1, col, n)
      {
        assert q in RowBlocks(ci, row, col, n) <==> q in RowBlocks(ci, row, col, n - 1) || q == p;
        assert q == p <==> q.ci == ci && q.row == row && q.col == col + n - 1;
      }
    }
  }

  lemma {:induction false} PartOnce(ci: nat, row: nat, col: nat, width: nat, n: nat)
    ensures NoneTwice(PartBlocks(ci, row, col, width, n))
    ensures forall p :: p in PartBlocks(ci, row, col, width, n) <==> Within(p, ci, row, n, col, width)
  {
    if n > 0 {
      var before, last := PartBlocks(ci, row, col, width, n - 1), RowBlocks(ci, row + n - 1, col, width);
      PartOnce(ci, row, col, width, n - 1);
      RowOnce(ci, row + n - 1, col, width);
      NoneTwiceConcat(before, last);
      forall q
        ensures q in PartBlocks(ci, row, col, width, n) <==> Within(q, ci, row, n, col, width)
      {
        assert q in PartBlocks(ci, row, col, width, n) <==> q in before || q in last;
      }
    }
  }

  // The place of a block among those of an MCU.
  ghost predicate InMcu(d: Dims, g: ScanGeom, i: nat, y: nat, c: nat, n: nat, p: Pos)
    requires Known(d, g) && n <= |g.parts|
  {
    p.ci < n &&
    var q := g.parts[p.ci];
    Within(p, p.ci, TopRow(d, q, i, y), q.mcuHeight, Times(c, q.mcuWidth), q.mcuWidth)
  }

  lemma {:induction false} McuOnce(d: Dims, g: ScanGeom, i: nat, y: nat, c: nat, n: nat)
    requires Known(d, g) && n <= |g.parts|
    ensures NoneTwice(McuParts(d, g, i, y, c, n))
    ensures forall p :: p in McuParts(d, g, i, y, c, n) <==> InMcu(d, g, i, y, c, n, p)
  {
    hide Times;
    if n > 0 {
      var q := g.parts[n - 1];
      var before, last := McuParts(d, g, i, y, c, n - 1), PartBlocks(n - 1, TopRow(d, q, i, y), Times(c, q.mcuWidth), q.mcuWidth, q.mcuHeight);
      McuOnce(d, g, i, y, c, n - 1);
      PartOnce(n - 1, TopRow(d, q, i, y), Times(c, q.mcuWidth), q.mcuWidth, q.mcuHeight);
      NoneTwiceConcat(before, last);
      forall p
        ensures p in McuParts(d, g, i, y, c, n) <==> InMcu(d, g, i, y, c, n, p)
      {
        assert p in McuParts(d, g, i, y, c, n) <==> p in before || p in last;
      }
    }
  }

  // Block p is in MCU row y of iMCU row i, in one of its first n MCUs.
  ghost predicate InRow(d: Dims, g: ScanGeom, i: nat, y: nat, n: nat, p: Pos)
    requires Known(d, g)
  {
    p.ci < |g.parts| &&
    var q := g.parts[p.ci];
    TopRow(d, q, i, y) <= p.row < TopRow(d, q, i, y) + q.mcuHeight && p.col < Times(n, q.mcuWidth)
  }

  lemma {:induction false} RowJoined(d: Dims, g: ScanGeom, i: nat, y: nat, n: nat)
    requires Known(d, g)
    ensures NoneTwice(Blocks(McuRow(d, g, i, y, n)))
    ensures forall p :: p in Blocks(McuRow(d, g, i, y, n)) <==> InRow(d, g, i, y, n, p)
  {
    hide Times, TopRow;
    if n > 0 {
      var before, last := Blocks(McuRow(d, g, i, y, n - 1)), McuAt(d, g, i, y, n - 1);
      RowJoined(d, g, i, y, n - 1);
      McuOnce(d, g, i, y, n - 1, |g.parts|);
      JoinedConcat(McuRow(d, g, i, y, n - 1), [last]);
      JoinedOne(last);
      forall p
        ensures p in Blocks(McuRow(d, g, i, y, n)) <==> InRow(d, g, i, y, n, p)
        ensures p in before ==> p !in last
      {
        assert p in Blocks(McuRow(d, g, i, y, n)) <==> p in before || p in last;
        if p.ci < |g.parts| { TimesNext(n - 1, g.parts[p.ci].mcuWidth); }
      }
      NoneTwiceConcat(before, last);
    } else {
      forall p
        ensures !InRow(d, g, i, y, n, p)
      {
        if p.ci < |g.parts| { TimesNone(g.parts[p.ci].mcuWidth); }
      }
    }
  }

  // Block p is in one of the first n MCU rows of iMCU row i.
  ghost predicate InRows(d: Dims, g: ScanGeom, i: nat, n: nat, p: Pos)
    requires Known(d, g)
  {
    p.ci < |g.parts| &&
    var q := g.parts[p.ci];
    TopRow(d, q, i, 0) <= p.row < TopRow(d, q, i, 0) + Times(n, q.mcuHeight) && p.col < Times(g.perRow, q.mcuWidth)
  }

  // A scan of one component has MCU rows of one block row; any other has a single MCU row in an iMCU row.
  ghost predicate OneOrFlat(g: ScanGeom) {
    |g.parts| == 1 ==> g.parts[0].mcuHeight == 1
  }

  lemma {:induction false} RowsJoined(d: Dims, g: ScanGeom, i: nat, n: nat)
    requires Known(d, g) && OneOrFlat(g) && (n > 1 ==> |g.parts| == 1)
    ensures NoneTwice(Blocks(McuRows(d, g, i, n)))
    ensures forall p :: p in Blocks(McuRows(d, g, i, n)) <==> InRows(d, g, i, n, p)
  {
    hide Times;
    if n > 0 {
      var before, last := McuRows(d, g, i, n - 1), McuRow(d, g, i, n - 1, g.perRow);
      RowsJoined(d, g, i, n - 1);
      RowJoined(d, g, i, n - 1, g.perRow);
      JoinedConcat(before, last);
      forall p
        ensures p in Blocks(McuRows(d, g, i, n)) <==> InRows(d, g, i, n, p)
        ensures p in Blocks(before) ==> p !in Blocks(last)
      {
        assert p in Blocks(McuRows(d, g, i, n)) <==> p in Blocks(before) || p in Blocks(last);
        if p.ci < |g.parts| { RowAbove(n, g.parts[p.ci].mcuHeight, |g.parts| == 1); }
      }
      NoneTwiceConcat(Blocks(before), Blocks(last));
    } else {
      forall p
        ensures !InRows(d, g, i, n, p)
      {
        if p.ci < |g.parts| { TimesNone(g.parts[p.ci].mcuHeight); }
      }
    }
  }

  lemma RowAbove(n: nat, height: nat, single: bool)
    requires n >= 1 && if single then height == 1 else n == 1
    ensures Times(n, height) == n - 1 + height && Times(n - 1, height) == n - 1
  {
  }

  // How many block rows of part q there are in the first n iMCU rows.
  function RowsUpTo(d: Dims, q: Part, single: bool, n: nat): nat
    requires q.c < |d.comps|
  {
    if single && n == d.rows then d.comps[q.c].height else Times(n, d.comps[q.c].v)
  }

  ghost predicate InScan(d: Dims, g: ScanGeom, n: nat, p: Pos)
    requires Known(d, g)
  {
    p.ci < |g.parts| &&
    var q := g.parts[p.ci];
    p.row < RowsUpTo(d, q, |g.parts| == 1, n) && p.col < Times(g.perRow, q.mcuWidth)
  }

  lemma GeomKnown(d: Dims, comps: seq<nat>, g: ScanGeom)
    requires GoodDims(d) && GoodGeom(d, comps, g)
    ensures Known(d, g) && OneOrFlat(g) && g.parts != []
  {
    hide Rest;
    forall ci | 0 <= ci < |g.parts|
      ensures g.parts[ci].c < |d.comps|
    {
      assert GoodPart(d, comps[ci], |comps| == 1, g.parts[ci]);
    }
    assert GoodPart(d, comps[0], |comps| == 1, g.parts[0]);
  }

  // The block rows of iMCU row n - 1 follow on those before it.
  lemma RowsFollow(d: Dims, comps: seq<nat>, g: ScanGeom, ci: nat, n: nat)
    requires GoodDims(d) && GoodGeom(d, comps, g) && ci < |g.parts| && 1 <= n <= d.rows && Known(d, g)
    ensures var q, single := g.parts[ci], |g.parts| == 1;
      && TopRow(d, q, n - 1, 0) == RowsUpTo(d, q, single, n - 1)
      && RowsUpTo(d, q, single, n) == RowsUpTo(d, q, single, n - 1) + Times(RowsIn(d, g, n - 1), q.mcuHeight)
  {
    var q := g.parts[ci];
    assert GoodPart(d, comps[ci], |comps| == 1, q);
    assert Times(1, q.mcuHeight) == q.mcuHeight && (|g.parts| == 1 ==> Times(RowsIn(d, g, n - 1), 1) == RowsIn(d, g, n - 1));
    hide Times;
    TimesNext(n - 1, d.comps[q.c].v);
    assert |g.parts| == 1 ==> q == g.parts[0];
  }

  // The scan has every block it should have, once.
  lemma {:induction false} ScanJoined(d: Dims, comps: seq<nat>, g: ScanGeom, n: nat)
    requires GoodDims(d) && GoodGeom(d, comps, g) && n <= d.rows && Known(d, g)
    ensures NoneTwice(Blocks(ScanMcus(d, g, n)))
    ensures forall p :: p in Blocks(ScanMcus(d, g, n)) <==> InScan(d, g, n, p)
  {
    hide Times, TopRow, RowsIn, RowsUpTo, GoodGeom;
    GeomKnown(d, comps, g);
    if n > 0 {
      var before, last := ScanMcus(d, g, n - 1), McuRows(d, g, n - 1, RowsIn(d, g, n - 1));
      ScanJoined(d, comps, g, n - 1);
      OneRowOnly(d, g, n - 1);
      RowsJoined(d, g, n - 1, RowsIn(d, g, n - 1));
      JoinedConcat(before, last);
      forall p
        ensures p in Blocks(ScanMcus(d, g, n)) <==> InScan(d, g, n, p)
        ensures p in Blocks(before) ==> p !in Blocks(last)
      {
        assert p in Blocks(ScanMcus(d, g, n)) <==> p in Blocks(before) || p in Blocks(last);
        if p.ci < |g.parts| { RowsFollow(d, comps, g, p.ci, n); }
      }
      NoneTwiceConcat(Blocks(before), Blocks(last));
    } else {
      forall p
        ensures !InScan(d, g, n, p)
      {
        if p.ci < |g.parts| { NoRows(d, comps, g, p.ci); }
      }
    }
  }

  lemma OneRowOnly(d: Dims, g: ScanGeom, i: nat)
    requires Known(d, g)
    ensures RowsIn(d, g, i) > 1 ==> |g.parts| == 1
  {
  }

  lemma NoRows(d: Dims, comps: seq<nat>, g: ScanGeom, ci: nat)
    requires GoodDims(d) && GoodGeom(d, comps, g) && Known(d, g) && ci < |g.parts|
    ensures RowsUpTo(d, g.parts[ci], |g.parts| == 1, 0) == 0
  {
    assert GoodPart(d, comps[ci], |comps| == 1, g.parts[ci]);
    TimesNone(d.comps[g.parts[ci].c].v);
  }

  // A block that the scan should visit: a scan of one component has the real blocks only, any other also those that
  // fill up its last MCUs.
  ghost predicate Belongs(d: Dims, g: ScanGeom, p: Pos)
    requires Known(d, g)
  {
    p.ci < |g.parts| &&
    var comp := d.comps[g.parts[p.ci].c];
    if |g.parts| == 1 then p.row < comp.height && p.col < comp.width
    else p.row < Times(d.rows, comp.v) && p.col < Times(d.perRow, comp.h)
  }

  lemma EachBlockOnce(d: Dims, comps: seq<nat>, g: ScanGeom)
    requires GoodDims(d) && GoodGeom(d, comps, g)
    ensures Known(d, g) && NoneTwice(Blocks(AllMcus(d, g)))
    ensures forall p :: p in Blocks(AllMcus(d, g)) <==> Belongs(d, g, p)
  {
    assert forall n :: Times(n, 1) == n;
    hide Times;
    GeomKnown(d, comps, g);
    ScanJoined(d, comps, g, d.rows);
    forall p
      ensures InScan(d, g, d.rows, p) <==> Belongs(d, g, p)
    {
      if p.ci < |g.parts| { assert GoodPart(d, comps[p.ci], |comps| == 1, g.parts[p.ci]); }
    }
  }
}
