// The transcoder's coefficient controller: arrays of real blocks only, fill-up blocks made in a workspace of their own.
module CoefTranscode {
  import opened Geometry
  import opened McuOrder
  import opened Controllers
  import opened CoefOnePass

  // The workspace never holds an AC coefficient.
  ghost predicate OnlyDc(dummy: array<CoefBlock>)
    reads dummy
  {
    forall b, k :: 0 <= b < dummy.Length && 1 <= k < 64 ==> dummy[b][k] == 0
  }

  // Real blocks of a row go on the list.
  method PointAt(buffer0: seq<CoefBlock>, d: Dims, g: ScanGeom, ci: nat, row: nat, col: nat, count: nat, plane: Plane,
                 ghost img: seq<Plane>, ghost ps: seq<Pos>)
    returns (buffer: seq<CoefBlock>)
    requires GoodDims(d) && IsPicture(d, img) && ci < |g.parts| && g.parts[ci].c < |d.comps| && plane == img[g.parts[ci].c]
    requires row < d.comps[g.parts[ci].c].height && col + count <= d.comps[g.parts[ci].c].width
    requires OfScan(d, g, ps) && buffer0 == Contents(d, g, img, ps)
    ensures OfScan(d, g, ps + RowBlocks(ci, row, col, count)) && buffer == Contents(d, g, img, ps + RowBlocks(ci, row, col, count))
  {
    hide GoodDims, Contents, OfScan;
    buffer := buffer0;
    assert ps + RowBlocks(ci, row, col, 0) == ps;
    var xindex := 0;
    while xindex < count
      invariant 0 <= xindex <= count
      invariant OfScan(d, g, ps + RowBlocks(ci, row, col, xindex)) && buffer == Contents(d, g, img, ps + RowBlocks(ci, row, col, xindex))
    {
      RealBlock(d, g, img, ci, row, col + xindex);
      OneMore(d, g, img, ps, ci, row, col, xindex);
      buffer := buffer + [plane[row][col + xindex]];
      xindex := xindex + 1;
    }
  }

  lemma RealBlock(d: Dims, g: ScanGeom, img: seq<Plane>, ci: nat, row: nat, col: nat)
    requires GoodDims(d) && IsPicture(d, img) && ci < |g.parts| && g.parts[ci].c < |d.comps|
    requires row < d.comps[g.parts[ci].c].height && col < d.comps[g.parts[ci].c].width
    ensures ShownAt(d, g, img, Pos(ci, row, col)) == img[g.parts[ci].c][row][col]
  {
  }

  lemma OneMore(d: Dims, g: ScanGeom, img: seq<Plane>, ps: seq<Pos>, ci: nat, row: nat, col: nat, n: nat)
    requires GoodDims(d) && IsPicture(d, img) && ci < |g.parts| && g.parts[ci].c < |d.comps| && OfScan(d, g, ps + RowBlocks(ci, row, col, n))
    ensures OfScan(d, g, ps + RowBlocks(ci, row, col, n + 1))
    ensures Contents(d, g, img, ps + RowBlocks(ci, row, col, n + 1))
      == Contents(d, g, img, ps + RowBlocks(ci, row, col, n)) + [ShownAt(d, g, img, Pos(ci, row, col + n))]
  {
    hide OfScan, Contents, ShownAt;
    ContentsSnoc(d, g, img, ps + RowBlocks(ci, row, col, n), Pos(ci, row, col + n));
    assert ps + RowBlocks(ci, row, col, n) + [Pos(ci, row, col + n)] == ps + RowBlocks(ci, row, col, n + 1);
  }

  // The rest of a row is filled up from the workspace, each block with the DC value of the one before it on the list.
  method FillUp(buffer0: seq<CoefBlock>, dummy: array<CoefBlock>, d: Dims, g: ScanGeom, ci: nat, row: nat, col: nat, start: nat,
                ghost img: seq<Plane>, ghost before: seq<Pos>)
    returns (buffer: seq<CoefBlock>)
    requires GoodDims(d) && IsPicture(d, img) && ci < |g.parts| && g.parts[ci].c < |d.comps| && OnlyDc(dummy)
    requires start <= g.parts[ci].mcuWidth && 1 <= |buffer0| && |buffer0| + (g.parts[ci].mcuWidth - start) <= dummy.Length
    requires forall k :: col + start <= k < col + g.parts[ci].mcuWidth ==> ShownAt(d, g, img, Pos(ci, row, k)) == Dummy(buffer0[|buffer0| - 1][0])
    requires OfScan(d, g, before + RowBlocks(ci, row, col, start)) && buffer0 == Contents(d, g, img, before + RowBlocks(ci, row, col, start))
    modifies dummy
    ensures OnlyDc(dummy) && OfScan(d, g, before + RowBlocks(ci, row, col, g.parts[ci].mcuWidth))
    ensures buffer == Contents(d, g, img, before + RowBlocks(ci, row, col, g.parts[ci].mcuWidth))
  {
    hide GoodDims, Contents, OfScan, ShownAt;
    buffer := buffer0;
    ghost var dc := buffer0[|buffer0| - 1][0];
    var xindex := start;
    while xindex < g.parts[ci].mcuWidth
      invariant start <= xindex <= g.parts[ci].mcuWidth && OnlyDc(dummy) && |buffer| == |buffer0| + (xindex - start)
      invariant buffer[|buffer| - 1][0] == dc
      invariant OfScan(d, g, before + RowBlocks(ci, row, col, xindex)) && buffer == Contents(d, g, img, before + RowBlocks(ci, row, col, xindex))
    {
      var blkn := |buffer|;
      OneMore(d, g, img, before, ci, row, col, xindex);
      dummy[blkn] := dummy[blkn][0 := buffer[blkn - 1][0]];
      assert dummy[blkn] == Dummy(dc);
      buffer := buffer + [dummy[blkn]];
      xindex := xindex + 1;
    }
  }

  // Fill-up blocks at the right end of a row have the DC value of its last real block.
  lemma {:induction false} RightDc(comp: Component, plane: Plane, row: nat, k: nat)
    requires comp.h >= 1 && comp.width >= 1 && comp.height >= 1 && IsPlane(comp, plane) && row < comp.height && comp.width <= k
    ensures Shown(comp, plane, row, k) == Dummy(Shown(comp, plane, row, comp.width - 1)[0])
  {
  }

  // A block row of part ci in the MCU, real or not.
  method ListRow(buffer0: seq<CoefBlock>, dummy: array<CoefBlock>, d: Dims, comps: seq<nat>, g: ScanGeom, ci: nat, i: nat, y: nat, c: nat,
                 yindex: nat, plane: Plane, ghost img: seq<Plane>, ghost start: seq<Pos>)
    returns (buffer: seq<CoefBlock>)
    requires GoodDims(d) && GoodGeom(d, comps, g) && Known(d, g) && ci < |g.parts| && i < d.rows && y < RowsIn(d, g, i) && c < g.perRow
    requires IsPicture(d, img) && plane == img[g.parts[ci].c] && yindex < g.parts[ci].mcuHeight && OnlyDc(dummy)
    requires |buffer0| + g.parts[ci].mcuWidth <= dummy.Length
    requires var q := g.parts[ci]; var ps := start + PartBlocks(ci, TopRow(d, q, i, y), Times(c, q.mcuWidth), q.mcuWidth, yindex);
      OfScan(d, g, ps) && buffer0 == Contents(d, g, img, ps)
    modifies dummy
    ensures OnlyDc(dummy) && |buffer| == |buffer0| + g.parts[ci].mcuWidth
    ensures var q := g.parts[ci]; var ps := start + PartBlocks(ci, TopRow(d, q, i, y), Times(c, q.mcuWidth), q.mcuWidth, yindex + 1);
      OfScan(d, g, ps) && buffer == Contents(d, g, img, ps)
  {
    hide Times, GoodDims, GoodGeom, IsPlane, RowsIn, TopRow, Contents, OfScan, Count, OnlyDc, PartBlocks, ShownAt, Shown;
    var q := g.parts[ci];
    var top, col := TopRow(d, q, i, y), Times(c, q.mcuWidth);
    var row := top + yindex;
    ghost var ps := start + PartBlocks(ci, top, col, q.mcuWidth, yindex);
    RealRow(d, comps, g, ci, i, y, yindex);
    ColumnsOf(d, comps, g, ci, c);
    ShownThere(d, g, img, ci, row);
    buffer := buffer0;
    var xindex := 0;
    if i < d.rows - 1 || y + yindex < q.lastRowHeight {
      xindex := Count(g, q, c);
      buffer := PointAt(buffer, d, g, ci, row, col, xindex, plane, img, ps);
      LastListed(d, g, img, ps, ci, row, col, xindex);
      forall k | col + xindex <= k < col + q.mcuWidth
        ensures ShownAt(d, g, img, Pos(ci, row, k)) == Dummy(ShownAt(d, g, img, Pos(ci, row, col + xindex - 1))[0])
      {
        RightDc(d.comps[q.c], plane, row, k);
      }
    } else {
      ShownThere(d, g, img, ci, row - 1);
      LastOfPart(d, g, img, start, ci, top, col, q.mcuWidth, yindex);
      forall k | col <= k < col + q.mcuWidth
        ensures ShownAt(d, g, img, Pos(ci, row, k)) == Dummy(ShownAt(d, g, img, Pos(ci, row - 1, col + q.mcuWidth - 1))[0])
      {
        FillsBelow(d.comps[q.c], plane, row, c, k - col);
      }
      assert ps + RowBlocks(ci, row, col, 0) == ps;
    }
    buffer := FillUp(buffer, dummy, d, g, ci, row, col, xindex, img, ps);
    PartStep(start, ci, top, col, q.mcuWidth, yindex);
    RowLength(ci, row, col, q.mcuWidth);
  }

  lemma LastListed(d: Dims, g: ScanGeom, img: seq<Plane>, ps: seq<Pos>, ci: nat, row: nat, col: nat, n: nat)
    requires GoodDims(d) && IsPicture(d, img) && n >= 1 && OfScan(d, g, ps + RowBlocks(ci, row, col, n)) && ci < |g.parts| && g.parts[ci].c < |d.comps|
    ensures |RowBlocks(ci, row, col, n)| == n
    ensures var s := Contents(d, g, img, ps + RowBlocks(ci, row, col, n));
      |s| >= 1 && s[|s| - 1] == ShownAt(d, g, img, Pos(ci, row, col + n - 1))
  {
    hide ShownAt;
    RowLength(ci, row, col, n);
    var all := ps + RowBlocks(ci, row, col, n);
    assert all[|all| - 1] == Pos(ci, row, col + n - 1);
  }

  // The list of blocks of one MCU.
  method ListMcu(dummy: array<CoefBlock>, d: Dims, comps: seq<nat>, g: ScanGeom, i: nat, y: nat, c: nat, img: seq<Plane>)
    returns (buffer: seq<CoefBlock>)
    requires GoodDims(d) && GoodGeom(d, comps, g) && Known(d, g) && i < d.rows && y < RowsIn(d, g, i) && c < g.perRow
    requires IsPicture(d, img) && |g.membership| <= dummy.Length && OnlyDc(dummy)
    modifies dummy
    ensures OnlyDc(dummy) && OfScan(d, g, McuAt(d, g, i, y, c)) && buffer == Contents(d, g, img, McuAt(d, g, i, y, c))
  {
    hide Times, GoodDims, GoodGeom, TopRow, RowsIn, IsPlane, Contents, OfScan, PartBlocks, McuParts, OnlyDc, Members;
    var ci: nat := 0;
    buffer := [];
    MembershipIs(d, comps, g);
    NoParts(d, g, i, y, c);
    NoneListed(d, g, img);
    while ci < |g.parts|
      invariant 0 <= ci <= |g.parts| && OnlyDc(dummy) && OfScan(d, g, McuParts(d, g, i, y, c, ci))
      invariant buffer == Contents(d, g, img, McuParts(d, g, i, y, c, ci))
    {
      var p := g.parts[ci];
      ghost var before, top, col := McuParts(d, g, i, y, c, ci), TopRow(d, p, i, y), Times(c, p.mcuWidth);
      McuStep(d, g, i, y, c, ci);
      var yindex := 0;
      while yindex < p.mcuHeight
        invariant 0 <= yindex <= p.mcuHeight && OnlyDc(dummy) && OfScan(d, g, before + PartBlocks(ci, top, col, p.mcuWidth, yindex))
        invariant buffer == Contents(d, g, img, before + PartBlocks(ci, top, col, p.mcuWidth, yindex))
      {
        RoomLeft(d, g, i, y, c, ci, yindex);
        buffer := ListRow(buffer, dummy, d, comps, g, ci, i, y, c, yindex, img[p.c], img, before);
        yindex := yindex + 1;
      }
      ci := ci + 1;
    }
  }

  lemma NoneListed(d: Dims, g: ScanGeom, img: seq<Plane>)
    requires GoodDims(d) && IsPicture(d, img)
    ensures OfScan(d, g, []) && Contents(d, g, img, []) == []
  {
  }

  // compress_output of the transcoder: as much as one iMCU row.
  method TranscodeOutput(ctl: Counters, coder: Coder, dummy: array<CoefBlock>, d: Dims, comps: seq<nat>, g: ScanGeom, img: seq<Plane>,
                         ghost base: seq<seq<CoefBlock>>)
    returns (done: bool)
    requires GoodDims(d) && GoodGeom(d, comps, g) && IsPicture(d, img) && |g.membership| <= dummy.Length && OnlyDc(dummy) && ctl.iMcuRow < d.rows
    requires Fed(ctl, coder, d, g, img, base)
    modifies ctl, coder, dummy
    ensures Fed(ctl, coder, d, g, img, base) && ctl.iMcuRow == old(ctl.iMcuRow) + (if done then 1 else 0) && OnlyDc(dummy)
    ensures done ==> ctl.mcuCtr == ctl.vertOffset == 0
    ensures |coder.room| <= |old(coder.room)| && (done || |coder.room| < |old(coder.room)|)
  {
    hide Times, GoodDims, GoodGeom, Contents, OfScan, RowsIn, IsPicture, AllContents, FedTo, Known, OnlyDc;
    ghost var i := ctl.iMcuRow;
    var yoffset := ctl.vertOffset;
    while yoffset < ctl.rowsPerImcuRow
      invariant ctl.Valid(d, g) && ctl.iMcuRow == i && yoffset <= ctl.rowsPerImcuRow && (yoffset == ctl.rowsPerImcuRow ==> ctl.mcuCtr == 0)
      invariant FedTo(coder, d, g, img, base, i, yoffset, ctl.mcuCtr) && |coder.room| <= |old(coder.room)| && OnlyDc(dummy)
    {
      var mcuCol := ctl.mcuCtr;
      while mcuCol < g.perRow
        invariant mcuCol <= g.perRow && ctl.Valid(d, g) && ctl.iMcuRow == i
        invariant FedTo(coder, d, g, img, base, i, yoffset, mcuCol) && |coder.room| <= |old(coder.room)| && OnlyDc(dummy)
      {
        var buffer := ListMcu(dummy, d, comps, g, ctl.iMcuRow, yoffset, mcuCol, img);
        var ok := Offer(coder, buffer, d, g, img, base, i, yoffset, mcuCol);
        if !ok {
          ctl.vertOffset := yoffset;
          ctl.mcuCtr := mcuCol;
          return false;
        }
        mcuCol := mcuCol + 1;
      }
      RowFed(coder, d, g, img, base, i, yoffset);
      ctl.mcuCtr := 0;
      yoffset := yoffset + 1;
    }
    ImcuRowFed(coder, d, g, img, base, i);
    ctl.Advance(d, g);
    return true;
  }

  // A whole pass, called again whenever the coder had no room; the workspace is zeroed to begin with.
  method TranscodePass(coder: Coder, d: Dims, comps: seq<nat>, g: ScanGeom, img: seq<Plane>)
    requires GoodDims(d) && GoodGeom(d, comps, g) && IsPicture(d, img)
    modifies coder
    ensures Known(d, g) && FedAll(coder, d, g, img, old(coder.mcus))
  {
    hide GoodDims, GoodGeom, IsPicture, FedTo;
    GeomKnown(d, comps, g);
    var dummy := new CoefBlock[|g.membership|](_ => seq(64, _ => 0));
    var ctl := new Counters();
    ctl.StartPass(d, g);
    StartFed(ctl, coder, d, g, img);
    while ctl.iMcuRow < d.rows
      invariant fresh(ctl) && fresh(dummy) && OnlyDc(dummy)
      invariant Fed(ctl, coder, d, g, img, old(coder.mcus)) && (ctl.iMcuRow == d.rows ==> ctl.mcuCtr == ctl.vertOffset == 0)
      decreases d.rows - ctl.iMcuRow, |coder.room|
    {
      var done := TranscodeOutput(ctl, coder, dummy, d, comps, g, img, old(coder.mcus));
    }
    EndFed(ctl, coder, d, g, img, old(coder.mcus));
  }
}
