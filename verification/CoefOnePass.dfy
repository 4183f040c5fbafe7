// The compressor's coefficient controller in a single pass: blocks straight from the forward DCT, fill-up blocks made on the spot.
module CoefOnePass {
  import opened Geometry
  import opened McuOrder
  import opened Controllers

  // ----- which blocks are real -----

  lemma RealRow(d: Dims, comps: seq<nat>, g: ScanGeom, ci: nat, i: nat, y: nat, k: nat)
    requires GoodDims(d) && GoodGeom(d, comps, g) && Known(d, g) && ci < |g.parts| && i < d.rows && y < RowsIn(d, g, i) && k < g.parts[ci].mcuHeight
    ensures var q := g.parts[ci];
      && (i < d.rows - 1 || y + k < q.lastRowHeight <==> TopRow(d, q, i, y) + k < d.comps[q.c].height)
      && (TopRow(d, q, i, y) + k >= d.comps[q.c].height ==> k >= 1 && |g.parts| > 1)
  {
    var q := g.parts[ci];
    var comp := d.comps[q.c];
    assert GoodPart(d, comps[ci], |comps| == 1, q);
    hide Times;
    assert |g.parts| == 1 ==> q == g.parts[0];
    assert y + k < comp.v;
    if i < d.rows - 1 {
      TimesMono(i + 1, d.rows - 1, comp.v);
      TimesNext(i, comp.v);
    }
  }

  // blockcnt
  function Count(g: ScanGeom, q: Part, c: nat): nat { if c + 1 < g.perRow then q.mcuWidth else q.lastColWidth }

  lemma RealCols(d: Dims, comps: seq<nat>, g: ScanGeom, ci: nat, c: nat, k: nat)
    requires GoodDims(d) && GoodGeom(d, comps, g) && Known(d, g) && ci < |g.parts| && c < g.perRow && k < g.parts[ci].mcuWidth
    ensures var q := g.parts[ci];
      1 <= Count(g, q, c) <= q.mcuWidth && (k < Count(g, q, c) <==> Times(c, q.mcuWidth) + k < d.comps[q.c].width)
  {
    var q := g.parts[ci];
    var comp := d.comps[q.c];
    assert GoodPart(d, comps[ci], |comps| == 1, q);
    if |comps| == 1 {
      assert Times(c, 1) == c;
    } else {
      hide Times;
      if c < d.perRow - 1 {
        TimesMono(c + 1, d.perRow - 1, comp.h);
        TimesNext(c, comp.h);
      }
    }
  }

  // ----- filling the MCU buffer -----

  // forward_DCT: count blocks of a row of blocks.
  method ForwardDct(buf: array<CoefBlock>, blkn: nat, comp: Component, plane: Plane, row: nat, col: nat, count: nat)
    requires IsPlane(comp, plane) && row < comp.height && col + count <= comp.width && blkn + count <= buf.Length
    modifies buf
    ensures buf[..blkn] == old(buf[..blkn]) && forall j :: blkn <= j < blkn + count ==> buf[j] == plane[row][col + (j - blkn)]
  {
    var k := 0;
    while k < count
      invariant 0 <= k <= count && buf[..blkn] == old(buf[..blkn])
      invariant forall j :: blkn <= j < blkn + k ==> buf[j] == plane[row][col + (j - blkn)]
    {
      buf[blkn + k] := plane[row][col + k];
      k := k + 1;
    }
  }

  // A block row of an MCU with real blocks in it.
  method RealBlocks(buf: array<CoefBlock>, blkn: nat, comp: Component, plane: Plane, row: nat, col: nat, count: nat, width: nat)
    requires comp.h >= 1 && comp.width >= 1 && IsPlane(comp, plane) && row < comp.height && blkn + width <= buf.Length
    requires 1 <= count <= width && col + count <= comp.width && (count < width ==> col + count == comp.width)
    modifies buf
    ensures buf[..blkn] == old(buf[..blkn]) && forall j :: blkn <= j < blkn + width ==> buf[j] == Shown(comp, plane, row, col + (j - blkn))
  {
    ForwardDct(buf, blkn, comp, plane, row, col, count);
    assert forall j :: blkn <= j < blkn + count ==> buf[j] == Shown(comp, plane, row, col + (j - blkn));
    var bi := count;
    while bi < width
      invariant count <= bi <= width && buf[..blkn] == old(buf[..blkn])
      invariant forall j :: blkn <= j < blkn + bi ==> buf[j] == Shown(comp, plane, row, col + (j - blkn))
    {
      hide Shown;
      FillsRight(comp, plane, row, col + bi);
      assert buf[blkn + (bi - 1)] == Shown(comp, plane, row, col + (bi - 1));
      buf[blkn + bi] := seq(64, _ => 0);
      buf[blkn + bi] := buf[blkn + bi][0 := buf[blkn + bi - 1][0]];
      assert buf[blkn + bi] == Dummy(buf[blkn + bi - 1][0]);
      bi := bi + 1;
    }
  }

  // A block row of an MCU below the image.
  method FillUpBlocks(buf: array<CoefBlock>, blkn: nat, comp: Component, plane: Plane, row: nat, c: nat)
    requires comp.h >= 1 && comp.width >= 1 && comp.height >= 1 && IsPlane(comp, plane) && comp.height <= row && blkn + comp.h <= buf.Length
    requires 1 <= blkn && buf[blkn - 1] == Shown(comp, plane, row - 1, Times(c, comp.h) + comp.h - 1)
    modifies buf
    ensures buf[..blkn] == old(buf[..blkn]) && forall j :: blkn <= j < blkn + comp.h ==> buf[j] == Shown(comp, plane, row, Times(c, comp.h) + (j - blkn))
  {
    hide Times, Shown;
    var bi := 0;
    while bi < comp.h
      invariant 0 <= bi <= comp.h && buf[..blkn] == old(buf[..blkn]) && buf[blkn - 1] == old(buf[blkn - 1])
      invariant forall j :: blkn <= j < blkn + bi ==> buf[j] == Shown(comp, plane, row, Times(c, comp.h) + (j - blkn))
    {
      FillsBelow(comp, plane, row, c, bi);
      buf[blkn + bi] := seq(64, _ => 0);
      buf[blkn + bi] := buf[blkn + bi][0 := buf[blkn - 1][0]];
      assert buf[blkn + bi] == Dummy(buf[blkn - 1][0]);
      bi := bi + 1;
    }
  }

  // The blocks of a row are added to those of the MCU.
  lemma {:induction false} RowAdded(d: Dims, g: ScanGeom, img: seq<Plane>, ps: seq<Pos>, ci: nat, row: nat, col: nat, n: nat, s: seq<CoefBlock>)
    requires GoodDims(d) && IsPicture(d, img) && OfScan(d, g, ps) && ci < |g.parts| && g.parts[ci].c < |d.comps|
    requires |ps| + n <= |s| && s[..|ps|] == Contents(d, g, img, ps)
    requires forall j :: |ps| <= j < |ps| + n ==> s[j] == ShownAt(d, g, img, Pos(ci, row, col + (j - |ps|)))
    ensures |RowBlocks(ci, row, col, n)| == n && OfScan(d, g, ps + RowBlocks(ci, row, col, n))
    ensures s[..|ps| + n] == Contents(d, g, img, ps + RowBlocks(ci, row, col, n))
  {
    hide GoodDims, IsPicture, OfScan, Contents, ShownAt;
    if n == 0 {
      assert ps + [] == ps;
    } else {
      var before, p := ps + RowBlocks(ci, row, col, n - 1), Pos(ci, row, col + n - 1);
      RowAdded(d, g, img, ps, ci, row, col, n - 1, s);
      ContentsSnoc(d, g, img, before, p);
      assert before + [p] == ps + RowBlocks(ci, row, col, n);
      assert s[|ps| + n - 1] == ShownAt(d, g, img, p);
    }
  }

  lemma LastOfPart(d: Dims, g: ScanGeom, img: seq<Plane>, before: seq<Pos>, ci: nat, top: nat, col: nat, width: nat, n: nat)
    requires GoodDims(d) && IsPicture(d, img) && n >= 1 && width >= 1
    requires OfScan(d, g, before + PartBlocks(ci, top, col, width, n))
    ensures ci < |g.parts| && g.parts[ci].c < |d.comps|
    ensures var s := Contents(d, g, img, before + PartBlocks(ci, top, col, width, n));
      |s| >= 1 && s[|s| - 1] == ShownAt(d, g, img, Pos(ci, top + n - 1, col + width - 1))
  {
    hide ShownAt;
    var ps := before + PartBlocks(ci, top, col, width, n);
    assert ps[|ps| - 1] == Pos(ci, top + n - 1, col + width - 1);
  }

  // The first blkn blocks of the buffer are those at ps.
  ghost predicate Filled(buf: array<CoefBlock>, blkn: nat, d: Dims, g: ScanGeom, img: seq<Plane>, ps: seq<Pos>)
    requires GoodDims(d) && IsPicture(d, img)
    reads buf
  {
    blkn == |ps| <= buf.Length && OfScan(d, g, ps) && buf[..blkn] == Contents(d, g, img, ps)
  }

  // A block row of part ci in the MCU, real or not.
  method FillRow(buf: array<CoefBlock>, blkn: nat, d: Dims, comps: seq<nat>, g: ScanGeom, ci: nat, i: nat, y: nat, c: nat, yindex: nat,
                 plane: Plane, ghost img: seq<Plane>, ghost start: seq<Pos>)
    requires GoodDims(d) && GoodGeom(d, comps, g) && Known(d, g) && ci < |g.parts| && i < d.rows && y < RowsIn(d, g, i) && c < g.perRow
    requires IsPicture(d, img) && plane == img[g.parts[ci].c] && yindex < g.parts[ci].mcuHeight && blkn + g.parts[ci].mcuWidth <= buf.Length
    requires var q := g.parts[ci];
      Filled(buf, blkn, d, g, img, start + PartBlocks(ci, TopRow(d, q, i, y), Times(c, q.mcuWidth), q.mcuWidth, yindex))
    modifies buf
    ensures var q := g.parts[ci];
      Filled(buf, blkn + q.mcuWidth, d, g, img, start + PartBlocks(ci, TopRow(d, q, i, y), Times(c, q.mcuWidth), q.mcuWidth, yindex + 1))
  {
    hide Times, GoodDims, GoodGeom, IsPicture, RowsIn, TopRow, Filled, Count;
    var q := g.parts[ci];
    var comp, top, col := d.comps[q.c], TopRow(d, q, i, y), Times(c, q.mcuWidth);
    ghost var ps := start + PartBlocks(ci, top, col, q.mcuWidth, yindex);
    RealRow(d, comps, g, ci, i, y, yindex);
    ColumnsOf(d, comps, g, ci, c);
    if i < d.rows - 1 || y + yindex < q.lastRowHeight {
      AddReal(buf, blkn, d, g, ci, top + yindex, col, Count(g, q, c), plane, img, ps);
    } else {
      LastFilled(buf, blkn, d, g, img, start, ci, top, col, q.mcuWidth, yindex);
      AddFillUp(buf, blkn, d, g, ci, top + yindex, c, plane, img, ps);
    }
    assert ps + RowBlocks(ci, top + yindex, col, q.mcuWidth) == start + PartBlocks(ci, top, col, q.mcuWidth, yindex + 1);
  }

  method AddReal(buf: array<CoefBlock>, blkn: nat, d: Dims, g: ScanGeom, ci: nat, row: nat, col: nat, count: nat, plane: Plane,
                 ghost img: seq<Plane>, ghost ps: seq<Pos>)
    requires GoodDims(d) && IsPicture(d, img) && ci < |g.parts| && g.parts[ci].c < |d.comps| && plane == img[g.parts[ci].c]
    requires var q := g.parts[ci];
      && row < d.comps[q.c].height && blkn + q.mcuWidth <= buf.Length && 1 <= count <= q.mcuWidth
      && col + count <= d.comps[q.c].width && (count < q.mcuWidth ==> col + count == d.comps[q.c].width)
    requires Filled(buf, blkn, d, g, img, ps)
    modifies buf
    ensures Filled(buf, blkn + g.parts[ci].mcuWidth, d, g, img, ps + RowBlocks(ci, row, col, g.parts[ci].mcuWidth))
  {
    hide GoodDims, IsPlane, Shown, ShownAt, Contents, OfScan;
    var q := g.parts[ci];
    ShownThere(d, g, img, ci, row);
    RealBlocks(buf, blkn, d.comps[q.c], plane, row, col, count, q.mcuWidth);
    RowFilled(buf, blkn, d, g, img, ps, ci, row, col, q.mcuWidth);
  }

  method AddFillUp(buf: array<CoefBlock>, blkn: nat, d: Dims, g: ScanGeom, ci: nat, row: nat, c: nat, plane: Plane,
                   ghost img: seq<Plane>, ghost ps: seq<Pos>)
    requires GoodDims(d) && IsPicture(d, img) && ci < |g.parts| && g.parts[ci].c < |d.comps| && plane == img[g.parts[ci].c]
    requires var q := g.parts[ci]; var comp := d.comps[q.c];
      && comp.height <= row && 1 <= row && q.mcuWidth == comp.h && 1 <= comp.h && blkn + q.mcuWidth <= buf.Length && 1 <= blkn
      && buf[blkn - 1] == ShownAt(d, g, img, Pos(ci, row - 1, Times(c, comp.h) + comp.h - 1))
    requires Filled(buf, blkn, d, g, img, ps)
    modifies buf
    ensures var q := g.parts[ci];
      Filled(buf, blkn + q.mcuWidth, d, g, img, ps + RowBlocks(ci, row, Times(c, q.mcuWidth), q.mcuWidth))
  {
    hide GoodDims, IsPlane, Shown, ShownAt, Contents, OfScan, Times;
    var q := g.parts[ci];
    ShownThere(d, g, img, ci, row);
    ShownThere(d, g, img, ci, row - 1);
    FillUpBlocks(buf, blkn, d.comps[q.c], plane, row, c);
    RowFilled(buf, blkn, d, g, img, ps, ci, row, Times(c, q.mcuWidth), q.mcuWidth);
  }

  lemma ShownThere(d: Dims, g: ScanGeom, img: seq<Plane>, ci: nat, row: nat)
    requires GoodDims(d) && IsPicture(d, img) && ci < |g.parts| && g.parts[ci].c < |d.comps|
    ensures var comp := d.comps[g.parts[ci].c];
      && comp.h >= 1 && comp.width >= 1 && comp.height >= 1
      && forall x: nat :: ShownAt(d, g, img, Pos(ci, row, x)) == Shown(comp, img[g.parts[ci].c], row, x)
  {
    hide Shown;
    NotEmpty(d, g.parts[ci].c);
  }

  lemma LastFilled(buf: array<CoefBlock>, blkn: nat, d: Dims, g: ScanGeom, img: seq<Plane>, start: seq<Pos>,
                   ci: nat, top: nat, col: nat, width: nat, n: nat)
    requires GoodDims(d) && IsPicture(d, img) && n >= 1 && width >= 1 && Filled(buf, blkn, d, g, img, start + PartBlocks(ci, top, col, width, n))
    ensures ci < |g.parts| && g.parts[ci].c < |d.comps| && 1 <= blkn <= buf.Length
    ensures buf[blkn - 1] == ShownAt(d, g, img, Pos(ci, top + n - 1, col + width - 1))
  {
    hide ShownAt, Contents;
    LastOfPart(d, g, img, start, ci, top, col, width, n);
    assert buf[blkn - 1] == buf[..blkn][blkn - 1];
  }

  lemma RowFilled(buf: array<CoefBlock>, blkn: nat, d: Dims, g: ScanGeom, img: seq<Plane>, ps: seq<Pos>, ci: nat, row: nat, col: nat, n: nat)
    requires GoodDims(d) && IsPicture(d, img) && ci < |g.parts| && g.parts[ci].c < |d.comps|
    requires Filled(buf, blkn, d, g, img, ps) && blkn + n <= buf.Length
    requires forall j :: blkn <= j < blkn + n ==> buf[j] == ShownAt(d, g, img, Pos(ci, row, col + (j - blkn)))
    ensures Filled(buf, blkn + n, d, g, img, ps + RowBlocks(ci, row, col, n))
  {
    hide ShownAt, Contents;
    assert buf[..][..blkn] == buf[..blkn] && buf[..][..blkn + n] == buf[..blkn + n];
    RowAdded(d, g, img, ps, ci, row, col, n, buf[..]);
  }

  lemma ColumnsOf(d: Dims, comps: seq<nat>, g: ScanGeom, ci: nat, c: nat)
    requires GoodDims(d) && GoodGeom(d, comps, g) && Known(d, g) && ci < |g.parts| && c < g.perRow
    ensures var q, n := g.parts[ci], Count(g, g.parts[ci], c); var col, width := Times(c, q.mcuWidth), d.comps[q.c].width;
      1 <= n <= q.mcuWidth && col + n <= width && (n < q.mcuWidth ==> col + n == width) && (|g.parts| > 1 ==> q.mcuWidth == d.comps[q.c].h)
  {
    hide Times, Rest;
    var q := g.parts[ci];
    var n := Count(g, q, c);
    assert GoodPart(d, comps[ci], |comps| == 1, q);
    RealCols(d, comps, g, ci, c, 0);
    RealCols(d, comps, g, ci, c, n - 1);
    if n < q.mcuWidth { RealCols(d, comps, g, ci, c, n); }
  }

  // The blocks of one MCU: real ones from the forward DCT, the others made up.
  method FillMcu(buf: array<CoefBlock>, d: Dims, comps: seq<nat>, g: ScanGeom, i: nat, y: nat, c: nat, img: seq<Plane>)
    requires GoodDims(d) && GoodGeom(d, comps, g) && Known(d, g) && i < d.rows && y < RowsIn(d, g, i) && c < g.perRow
    requires IsPicture(d, img) && |g.membership| <= buf.Length
    modifies buf
    ensures Filled(buf, |g.membership|, d, g, img, McuAt(d, g, i, y, c))
  {
    hide Times, GoodDims, GoodGeom, TopRow, RowsIn, IsPlane, Contents, OfScan, PartBlocks, McuParts;
    var blkn: nat, ci: nat := 0, 0;
    MembershipIs(d, comps, g);
    NoneFilled(buf, d, g, img);
    NoParts(d, g, i, y, c);
    hide Filled, Known, Members;
    while ci < |g.parts|
      invariant 0 <= ci <= |g.parts| && Filled(buf, blkn, d, g, img, McuParts(d, g, i, y, c, ci))
    {
      var p := g.parts[ci];
      ghost var before, col := McuParts(d, g, i, y, c, ci), Times(c, p.mcuWidth);
      McuStep(d, g, i, y, c, ci);
      var yindex := 0;
      while yindex < p.mcuHeight
        invariant 0 <= yindex <= p.mcuHeight
        invariant Filled(buf, blkn, d, g, img, before + PartBlocks(ci, TopRow(d, p, i, y), col, p.mcuWidth, yindex))
      {
        RoomLeft(d, g, i, y, c, ci, yindex);
        FilledSize(buf, blkn, d, g, img, before + PartBlocks(ci, TopRow(d, p, i, y), col, p.mcuWidth, yindex));
        FillRow(buf, blkn, d, comps, g, ci, i, y, c, yindex, img[p.c], img, before);
        blkn := blkn + p.mcuWidth;
        yindex := yindex + 1;
      }
      ci := ci + 1;
    }
    MembershipTells(d, g, i, y, c, |g.parts|);
    assert g.parts[..|g.parts|] == g.parts;
    FilledSize(buf, blkn, d, g, img, McuAt(d, g, i, y, c));
  }

  lemma FilledSize(buf: array<CoefBlock>, blkn: nat, d: Dims, g: ScanGeom, img: seq<Plane>, ps: seq<Pos>)
    requires GoodDims(d) && IsPicture(d, img) && Filled(buf, blkn, d, g, img, ps)
    ensures blkn == |ps|
  {
  }

  lemma MembershipIs(d: Dims, comps: seq<nat>, g: ScanGeom)
    requires GoodGeom(d, comps, g)
    ensures g.membership == Members(g.parts)
  {
  }

  lemma NoneFilled(buf: array<CoefBlock>, d: Dims, g: ScanGeom, img: seq<Plane>)
    requires GoodDims(d) && IsPicture(d, img)
    ensures Filled(buf, 0, d, g, img, [])
  {
  }

  // There are more blocks in the MCU than those filled in.
  lemma RoomLeft(d: Dims, g: ScanGeom, i: nat, y: nat, c: nat, ci: nat, yindex: nat)
    requires Known(d, g) && ci < |g.parts| && yindex < g.parts[ci].mcuHeight
    ensures var q := g.parts[ci];
      |McuParts(d, g, i, y, c, ci) + PartBlocks(ci, TopRow(d, q, i, y), Times(c, q.mcuWidth), q.mcuWidth, yindex)| + q.mcuWidth <= |Members(g.parts)|
  {
    hide Times, TopRow;
    var q := g.parts[ci];
    var row, col := TopRow(d, q, i, y), Times(c, q.mcuWidth);
    MembershipTells(d, g, i, y, c, ci + 1);
    PartMembers(ci, row, col, q.mcuWidth, yindex);
    PartMembers(ci, row, col, q.mcuWidth, q.mcuHeight);
    TimesNext(yindex, q.mcuWidth);
    TimesMono(yindex + 1, q.mcuHeight, q.mcuWidth);
    MembersGrow(g.parts, ci + 1);
  }

  lemma {:induction false} MembersGrow(parts: seq<Part>, n: nat)
    requires n <= |parts|
    ensures |Members(parts[..n])| <= |Members(parts)|
    decreases |parts|
  {
    if n < |parts| {
      var shorter := parts[..|parts| - 1];
      assert shorter[..n] == parts[..n];
      MembersGrow(shorter, n);
    } else {
      assert parts[..n] == parts;
    }
  }

  // compress_data: as much as one iMCU row.
  method CompressData(ctl: Counters, coder: Coder, buf: array<CoefBlock>, d: Dims, comps: seq<nat>, g: ScanGeom, img: seq<Plane>,
                      ghost base: seq<seq<CoefBlock>>)
    returns (done: bool)
    requires GoodDims(d) && GoodGeom(d, comps, g) && IsPicture(d, img) && |g.membership| <= buf.Length && ctl.iMcuRow < d.rows
    requires Fed(ctl, coder, d, g, img, base)
    modifies ctl, coder, buf
    ensures Fed(ctl, coder, d, g, img, base) && ctl.iMcuRow == old(ctl.iMcuRow) + (if done then 1 else 0)
    ensures done ==> ctl.mcuCtr == ctl.vertOffset == 0
    ensures |coder.room| <= |old(coder.room)| && (done || |coder.room| < |old(coder.room)|)
  {
    hide Times, GoodDims, GoodGeom, Contents, OfScan, RowsIn, IsPicture, AllContents, FedTo, Known;
    ghost var i := ctl.iMcuRow;
    var yoffset := ctl.vertOffset;
    while yoffset < ctl.rowsPerImcuRow
      invariant ctl.Valid(d, g) && ctl.iMcuRow == i && yoffset <= ctl.rowsPerImcuRow && (yoffset == ctl.rowsPerImcuRow ==> ctl.mcuCtr == 0)
      invariant FedTo(coder, d, g, img, base, i, yoffset, ctl.mcuCtr) && |coder.room| <= |old(coder.room)|
    {
      var mcuCol := ctl.mcuCtr;
      while mcuCol < g.perRow
        invariant mcuCol <= g.perRow && ctl.Valid(d, g) && ctl.iMcuRow == i
        invariant FedTo(coder, d, g, img, base, i, yoffset, mcuCol) && |coder.room| <= |old(coder.room)|
      {
        FillMcu(buf, d, comps, g, ctl.iMcuRow, yoffset, mcuCol, img);
        var ok := Offer(coder, buf[..|g.membership|], d, g, img, base, i, yoffset, mcuCol);
        if !ok {
          ctl.vertOffset := yoffset;
          ctl.mcuCtr := mcuCol;
          return false;
        }
        mcuCol := mcuCol + 1;
      }
      RowFed(coder, d, g, img, base, i, yoffset);
      ctl.mcuCtr := 0;
      yoffset := yoffset + 1;
    }
    ImcuRowFed(coder, d, g, img, base, i);
    ctl.Advance(d, g);
    return true;
  }

  // A whole pass, called again whenever the coder had no room.
  method CompressPass(coder: Coder, buf: array<CoefBlock>, d: Dims, comps: seq<nat>, g: ScanGeom, img: seq<Plane>)
    requires GoodDims(d) && GoodGeom(d, comps, g) && IsPicture(d, img) && |g.membership| <= buf.Length
    modifies coder, buf
    ensures Known(d, g) && FedAll(coder, d, g, img, old(coder.mcus))
  {
    hide GoodDims, GoodGeom, IsPicture, FedTo;
    GeomKnown(d, comps, g);
    var ctl := new Counters();
    ctl.StartPass(d, g);
    StartFed(ctl, coder, d, g, img);
    while ctl.iMcuRow < d.rows
      invariant fresh(ctl) && Fed(ctl, coder, d, g, img, old(coder.mcus)) && (ctl.iMcuRow == d.rows ==> ctl.mcuCtr == ctl.vertOffset == 0)
      decreases d.rows - ctl.iMcuRow, |coder.room|
    {
      var done := CompressData(ctl, coder, buf, d, comps, g, img, old(coder.mcus));
    }
    EndFed(ctl, coder, d, g, img, old(coder.mcus));
  }
}
