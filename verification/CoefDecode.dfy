// The decompressor's coefficient controller: every MCU of a scan goes to its place in the full-image arrays.
module CoefDecode {
  import opened Geometry
  import opened McuOrder
  import opened Controllers
  import opened CoefController
  import opened CoefOnePass

  // The entropy decoder: the MCUs still to come, and for each coming call whether its bytes have arrived, as they have at last.
  class McuSource {
    var mcus: seq<seq<CoefBlock>>
    var arrived: seq<bool>

    constructor (mcus: seq<seq<CoefBlock>>, arrived: seq<bool>)
      ensures this.mcus == mcus && this.arrived == arrived
    {
      this.mcus, this.arrived := mcus, arrived;
    }

    // decode_mcu
    method DecodeMcu() returns (ok: bool, mcu: seq<CoefBlock>)
      requires mcus != []
      modifies this
      ensures ok <==> old(arrived) == [] || old(arrived)[0]
      ensures ok ==> mcu == old(mcus)[0]
      ensures mcus == if ok then old(mcus)[1..] else old(mcus)
      ensures arrived == if old(arrived) == [] then [] else old(arrived)[1..]
    {
      ok, mcu := arrived == [] || arrived[0], mcus[0];
      if arrived != [] { arrived := arrived[1..]; }
      if ok { mcus := mcus[1..]; }
    }
  }

  datatype Progress = Suspended | RowCompleted | ScanCompleted

  // ----- what the arrays hold -----

  // The arrays as they were before the scan.
  type Snapshot = seq<seq<seq<CoefBlock>>>

  ghost predicate Snaps(d: Dims, was: Snapshot) {
    && |was| == |d.comps|
    && forall c :: 0 <= c < |was| ==> |was[c]| == Times(d.rows, d.comps[c].v) && forall r :: 0 <= r < |was[c]| ==> |was[c][r]| == Times(d.perRow, d.comps[c].h)
  }

  // One of the blocks at ps is the one of component c at that place.
  ghost predicate Among(g: ScanGeom, ps: seq<Pos>, c: nat, row: nat, col: nat) {
    exists k :: 0 <= k < |ps| && ps[k].ci < |g.parts| && g.parts[ps[k].ci].c == c && ps[k].row == row && ps[k].col == col
  }

  // The blocks at ps are the image's, all others what they were.
  ghost predicate Holds(d: Dims, g: ScanGeom, arrays: seq<array2<CoefBlock>>, img: seq<Plane>, was: Snapshot, ps: seq<Pos>)
    requires GoodDims(d) && IsPicture(d, img) && GoodArrays(d, arrays) && Snaps(d, was)
    reads arrays
  {
    forall c :: 0 <= c < |arrays| ==> HoldsPlane(d, g, c, arrays[c], img[c], was[c], ps)
  }

  ghost predicate HoldsPlane(d: Dims, g: ScanGeom, c: nat, arr: array2<CoefBlock>, plane: Plane, was: seq<seq<CoefBlock>>, ps: seq<Pos>)
    requires GoodDims(d) && c < |d.comps| && IsPlane(d.comps[c], plane)
    requires |was| == arr.Length0 && forall r :: 0 <= r < |was| ==> |was[r]| == arr.Length1
    reads arr
  {
    NotEmpty(d, c);
    forall r, x :: 0 <= r < arr.Length0 && 0 <= x < arr.Length1 ==>
      arr[r, x] == if Among(g, ps, c, r, x) then Shown(d.comps[c], plane, r, x) else was[r][x]
  }

  lemma AmongMore(g: ScanGeom, ps: seq<Pos>, p: Pos, c: nat, row: nat, col: nat)
    ensures Among(g, ps + [p], c, row, col) <==>
      Among(g, ps, c, row, col) || (p.ci < |g.parts| && g.parts[p.ci].c == c && p.row == row && p.col == col)
  {
    if Among(g, ps, c, row, col) {
      var k :| 0 <= k < |ps| && ps[k].ci < |g.parts| && g.parts[ps[k].ci].c == c && ps[k].row == row && ps[k].col == col;
      assert (ps + [p])[k] == ps[k];
    }
    assert (ps + [p])[|ps|] == p;
  }

  // ----- one MCU -----

  // The pointers to the blocks of one MCU.
  method PointMcu(d: Dims, g: ScanGeom, i: nat, y: nat, c: nat) returns (ptrs: seq<Pos>)
    requires Known(d, g)
    ensures ptrs == McuAt(d, g, i, y, c)
  {
    hide Times;
    ptrs := [];
    var ci := 0;
    while ci < |g.parts|
      invariant 0 <= ci <= |g.parts| && ptrs == McuParts(d, g, i, y, c, ci)
    {
      var p := g.parts[ci];
      var startCol, yindex := Times(c, p.mcuWidth), 0;
      ghost var before := ptrs;
      McuStep(d, g, i, y, c, ci);
      while yindex < p.mcuHeight
        invariant 0 <= yindex <= p.mcuHeight && ptrs == before + PartBlocks(ci, TopRow(d, p, i, y), startCol, p.mcuWidth, yindex)
      {
        var row, xindex := TopRow(d, p, i, y) + yindex, 0;
        ghost var above := ptrs;
        while xindex < p.mcuWidth
          invariant 0 <= xindex <= p.mcuWidth && ptrs == above + RowBlocks(ci, row, startCol, xindex)
        {
          assert above + RowBlocks(ci, row, startCol, xindex + 1) == above + RowBlocks(ci, row, startCol, xindex) + [Pos(ci, row, startCol + xindex)];
          ptrs := ptrs + [Pos(ci, row, startCol + xindex)];
          xindex := xindex + 1;
        }
        PartStep(before, ci, TopRow(d, p, i, y), startCol, p.mcuWidth, yindex);
        yindex := yindex + 1;
      }
      ci := ci + 1;
    }
  }

  // The place is inside its array.
  ghost predicate Inside(d: Dims, g: ScanGeom, p: Pos) {
    && p.ci < |g.parts| && g.parts[p.ci].c < |d.comps|
    && p.row < Times(d.rows, d.comps[g.parts[p.ci].c].v) && p.col < Times(d.perRow, d.comps[g.parts[p.ci].c].h)
  }

  lemma McuInside(d: Dims, comps: seq<nat>, g: ScanGeom, i: nat, y: nat, c: nat)
    requires GoodDims(d) && GoodGeom(d, comps, g) && Known(d, g) && i < d.rows && y < RowsIn(d, g, i) && c < g.perRow
    ensures forall k :: 0 <= k < |McuAt(d, g, i, y, c)| ==> Inside(d, g, McuAt(d, g, i, y, c)[k])
  {
    hide Times, GoodDims, GoodGeom, RowsIn;
    var ps := McuAt(d, g, i, y, c);
    McuOnce(d, g, i, y, c, |g.parts|);
    forall k | 0 <= k < |ps|
      ensures Inside(d, g, ps[k])
    {
      assert ps[k] in ps;
      assert InMcu(d, g, i, y, c, |g.parts|, ps[k]);
      PartInside(d, comps, g, ps[k].ci, i, y, c);
    }
  }

  method StoreBlock(d: Dims, g: ScanGeom, arrays: seq<array2<CoefBlock>>, p: Pos, b: CoefBlock, ghost img: seq<Plane>, ghost was: Snapshot, ghost ps: seq<Pos>)
    requires GoodDims(d) && IsPicture(d, img) && GoodArrays(d, arrays) && Snaps(d, was) && Holds(d, g, arrays, img, was, ps)
    requires Inside(d, g, p) && b == ShownAt(d, g, img, p)
    modifies arrays[g.parts[p.ci].c]
    ensures Holds(d, g, arrays, img, was, ps + [p])
  {
    hide Times, GoodDims, IsPlane, Shown, Among;
    var c := g.parts[p.ci].c;
    arrays[c][p.row, p.col] := b;
    forall b, r, x | 0 <= b < |arrays| && 0 <= r < arrays[b].Length0 && 0 <= x < arrays[b].Length1
      ensures Among(g, ps + [p], b, r, x) <==> Among(g, ps, b, r, x) || (b == c && r == p.row && x == p.col)
    {
      AmongMore(g, ps, p, b, r, x);
    }
  }

  // What decode_mcu does with the blocks of its MCU.
  method StoreMcu(d: Dims, g: ScanGeom, arrays: seq<array2<CoefBlock>>, ptrs: seq<Pos>, mcu: seq<CoefBlock>,
                  ghost img: seq<Plane>, ghost was: Snapshot, ghost ps: seq<Pos>)
    requires GoodDims(d) && IsPicture(d, img) && GoodArrays(d, arrays) && Snaps(d, was) && Holds(d, g, arrays, img, was, ps)
    requires (forall k :: 0 <= k < |ptrs| ==> Inside(d, g, ptrs[k])) && OfScan(d, g, ptrs) && mcu == Contents(d, g, img, ptrs)
    modifies set c | 0 <= c < |arrays| :: arrays[c]
    ensures Holds(d, g, arrays, img, was, ps + ptrs)
  {
    hide Inside, GoodDims, IsPicture, GoodArrays, Snaps, ShownAt;
    var blkn := 0;
    assert ps + ptrs[..0] == ps;
    while blkn < |ptrs|
      invariant 0 <= blkn <= |ptrs| && Holds(d, g, arrays, img, was, ps + ptrs[..blkn])
    {
      ArrayOf(d, g, arrays, ptrs[blkn]);
      StoreBlock(d, g, arrays, ptrs[blkn], mcu[blkn], img, was, ps + ptrs[..blkn]);
      assert ps + ptrs[..blkn] + [ptrs[blkn]] == ps + ptrs[..blkn + 1];
      blkn := blkn + 1;
    }
    assert ptrs[..blkn] == ptrs;
  }

  lemma ArrayOf(d: Dims, g: ScanGeom, arrays: seq<array2<CoefBlock>>, p: Pos)
    requires GoodArrays(d, arrays) && Inside(d, g, p)
    ensures p.ci < |g.parts| && g.parts[p.ci].c < |arrays| == |d.comps|
  {
  }

  // ----- the scan -----

  // The MCUs up to a place are in the arrays, and the source still has the rest of the scan's.
  ghost predicate StoredTo(src: McuSource, arrays: seq<array2<CoefBlock>>, d: Dims, g: ScanGeom, img: seq<Plane>, was: Snapshot, i: nat, y: nat, c: nat)
    requires GoodDims(d) && IsPicture(d, img) && GoodArrays(d, arrays) && Snaps(d, was) && Known(d, g)
    reads src, arrays
  {
    && Holds(d, g, arrays, img, was, Blocks(UpTo(d, g, i, y, c))) && OfScans(d, g, AllMcus(d, g)) && OfScans(d, g, UpTo(d, g, i, y, c))
    && AllContents(d, g, img, AllMcus(d, g)) == AllContents(d, g, img, UpTo(d, g, i, y, c)) + src.mcus
  }

  // There is an MCU still to come wherever the loops are.
  lemma {:induction false} Later(d: Dims, comps: seq<nat>, g: ScanGeom, n: nat, i: nat)
    requires GoodDims(d) && GoodGeom(d, comps, g) && Known(d, g) && i <= n
    ensures ScanMcus(d, g, i) <= ScanMcus(d, g, n)
  {
    if i < n { Later(d, comps, g, n - 1, i); }
  }

  lemma {:induction false} LaterRow(d: Dims, g: ScanGeom, i: nat, n: nat, y: nat)
    requires Known(d, g) && y <= n
    ensures McuRows(d, g, i, y) <= McuRows(d, g, i, n)
  {
    if y < n { LaterRow(d, g, i, n - 1, y); }
  }

  lemma {:induction false} LaterMcu(d: Dims, g: ScanGeom, i: nat, y: nat, n: nat, c: nat)
    requires Known(d, g) && c <= n
    ensures McuRow(d, g, i, y, c) <= McuRow(d, g, i, y, n)
  {
    if c < n { LaterMcu(d, g, i, y, n - 1, c); }
  }

  lemma NextThere(d: Dims, comps: seq<nat>, g: ScanGeom, i: nat, y: nat, c: nat)
    requires GoodDims(d) && GoodGeom(d, comps, g) && Known(d, g) && i < d.rows && y < RowsIn(d, g, i) && c < g.perRow
    ensures UpTo(d, g, i, y, c) + [McuAt(d, g, i, y, c)] <= AllMcus(d, g)
  {
    hide RowsIn, GoodGeom, GoodDims;
    NextMcu(d, g, i, y, c);
    LaterMcu(d, g, i, y, g.perRow, c + 1);
    NextRow(d, g, i, y);
    LaterRow(d, g, i, RowsIn(d, g, i), y + 1);
    Later(d, comps, g, d.rows, i + 1);
    var a, b, r := ScanMcus(d, g, i), McuRows(d, g, i, y), McuRow(d, g, i, y, c + 1);
    assert a + b + r <= a + McuRows(d, g, i, y + 1);
    assert a + McuRows(d, g, i, y + 1) <= a + McuRows(d, g, i, RowsIn(d, g, i));
  }

  // One MCU more, unless its bytes have not arrived.
  method Fetch(src: McuSource, arrays: seq<array2<CoefBlock>>, d: Dims, comps: seq<nat>, g: ScanGeom, i: nat, y: nat, c: nat, ghost img: seq<Plane>, ghost was: Snapshot)
    returns (ok: bool)
    requires GoodDims(d) && GoodGeom(d, comps, g) && IsPicture(d, img) && GoodArrays(d, arrays) && Snaps(d, was) && Known(d, g)
    requires i < d.rows && y < RowsIn(d, g, i) && c < g.perRow && StoredTo(src, arrays, d, g, img, was, i, y, c)
    modifies src, set c | 0 <= c < |arrays| :: arrays[c]
    ensures StoredTo(src, arrays, d, g, img, was, i, y, if ok then c + 1 else c)
    ensures |src.arrived| <= |old(src.arrived)| && (ok || |src.arrived| < |old(src.arrived)|)
  {
    hide GoodDims, GoodGeom, IsPicture, GoodArrays, Snaps, Holds, OfScan, OfScans, Contents, AllContents, Known, RowsIn, UpTo, McuAt, Inside;
    var ptrs := PointMcu(d, g, i, y, c);
    McuInside(d, comps, g, i, y, c);
    NextThere(d, comps, g, i, y, c);
    FirstLeft(src, d, g, img, i, y, c);
    var mcu;
    ok, mcu := src.DecodeMcu();
    if ok {
      StoreMcu(d, g, arrays, ptrs, mcu, img, was, Blocks(UpTo(d, g, i, y, c)));
      NextMcu(d, g, i, y, c);
      JoinedConcat(UpTo(d, g, i, y, c), [McuAt(d, g, i, y, c)]);
      JoinedOne(McuAt(d, g, i, y, c));
    }
  }

  // The source's next MCU is the one the loops are at.
  lemma FirstLeft(src: McuSource, d: Dims, g: ScanGeom, img: seq<Plane>, i: nat, y: nat, c: nat)
    requires GoodDims(d) && IsPicture(d, img) && Known(d, g) && OfScans(d, g, AllMcus(d, g)) && OfScans(d, g, UpTo(d, g, i, y, c))
    requires AllContents(d, g, img, AllMcus(d, g)) == AllContents(d, g, img, UpTo(d, g, i, y, c)) + src.mcus
    requires UpTo(d, g, i, y, c) + [McuAt(d, g, i, y, c)] <= AllMcus(d, g)
    ensures OfScan(d, g, McuAt(d, g, i, y, c)) && src.mcus != [] && src.mcus[0] == Contents(d, g, img, McuAt(d, g, i, y, c))
    ensures UpTo(d, g, i, y, c + 1) == UpTo(d, g, i, y, c) + [McuAt(d, g, i, y, c)] && OfScans(d, g, UpTo(d, g, i, y, c + 1))
    ensures AllContents(d, g, img, AllMcus(d, g)) == AllContents(d, g, img, UpTo(d, g, i, y, c + 1)) + src.mcus[1..]
  {
    hide GoodDims, IsPicture, Contents, OfScan, UpTo, McuAt, AllMcus;
    var all, done, m := AllMcus(d, g), UpTo(d, g, i, y, c), McuAt(d, g, i, y, c);
    assert all[|done|] == m;
    NextMcu(d, g, i, y, c);
    assert AllContents(d, g, img, all)[|done|] == Contents(d, g, img, m);
    AllContentsSnoc(d, g, img, done, m);
    assert src.mcus == [src.mcus[0]] + src.mcus[1..];
  }

  lemma RowPlaced(src: McuSource, arrays: seq<array2<CoefBlock>>, d: Dims, g: ScanGeom, img: seq<Plane>, was: Snapshot, i: nat, y: nat)
    requires GoodDims(d) && IsPicture(d, img) && GoodArrays(d, arrays) && Snaps(d, was) && Known(d, g)
    requires StoredTo(src, arrays, d, g, img, was, i, y, g.perRow)
    ensures StoredTo(src, arrays, d, g, img, was, i, y + 1, 0)
  {
    NextRow(d, g, i, y);
  }

  lemma ImcuRowPlaced(src: McuSource, arrays: seq<array2<CoefBlock>>, d: Dims, g: ScanGeom, img: seq<Plane>, was: Snapshot, i: nat)
    requires GoodDims(d) && IsPicture(d, img) && GoodArrays(d, arrays) && Snaps(d, was) && Known(d, g)
    requires StoredTo(src, arrays, d, g, img, was, i, RowsIn(d, g, i), 0)
    ensures StoredTo(src, arrays, d, g, img, was, i + 1, 0, 0)
  {
    NextImcuRow(d, g, i);
  }

  // consume_data: as much as one iMCU row.
  method ConsumeData(ctl: Counters, src: McuSource, d: Dims, comps: seq<nat>, g: ScanGeom, arrays: seq<array2<CoefBlock>>,
                     ghost img: seq<Plane>, ghost was: Snapshot)
    returns (progress: Progress)
    requires GoodDims(d) && GoodGeom(d, comps, g) && IsPicture(d, img) && GoodArrays(d, arrays) && Snaps(d, was) && ctl.iMcuRow < d.rows
    requires ctl.Valid(d, g) && StoredTo(src, arrays, d, g, img, was, ctl.iMcuRow, ctl.vertOffset, ctl.mcuCtr)
    modifies ctl, src, set c | 0 <= c < |arrays| :: arrays[c]
    ensures Known(d, g) && ctl.iMcuRow == old(ctl.iMcuRow) + (if progress == Suspended then 0 else 1)
    ensures progress == ScanCompleted <==> ctl.iMcuRow == d.rows
    ensures if progress == ScanCompleted then StoredTo(src, arrays, d, g, img, was, d.rows, 0, 0)
            else ctl.Valid(d, g) && StoredTo(src, arrays, d, g, img, was, ctl.iMcuRow, ctl.vertOffset, ctl.mcuCtr)
    ensures |src.arrived| <= |old(src.arrived)| && (progress != Suspended || |src.arrived| < |old(src.arrived)|)
  {
    hide GoodDims, GoodGeom, IsPicture, GoodArrays, Snaps, StoredTo, RowsIn, Known;
    var yoffset := ctl.vertOffset;
    while yoffset < ctl.rowsPerImcuRow
      invariant ctl.Valid(d, g) && ctl.iMcuRow == old(ctl.iMcuRow) && yoffset <= ctl.rowsPerImcuRow && (yoffset == ctl.rowsPerImcuRow ==> ctl.mcuCtr == 0)
      invariant StoredTo(src, arrays, d, g, img, was, ctl.iMcuRow, yoffset, ctl.mcuCtr) && |src.arrived| <= |old(src.arrived)|
    {
      var mcuCol := ctl.mcuCtr;
      while mcuCol < g.perRow
        invariant mcuCol <= g.perRow && ctl.Valid(d, g) && ctl.iMcuRow == old(ctl.iMcuRow)
        invariant StoredTo(src, arrays, d, g, img, was, ctl.iMcuRow, yoffset, mcuCol) && |src.arrived| <= |old(src.arrived)|
      {
        var ok := Fetch(src, arrays, d, comps, g, ctl.iMcuRow, yoffset, mcuCol, img, was);
        if !ok {
          ctl.vertOffset := yoffset;
          ctl.mcuCtr := mcuCol;
          return Suspended;
        }
        mcuCol := mcuCol + 1;
      }
      RowPlaced(src, arrays, d, g, img, was, ctl.iMcuRow, yoffset);
      ctl.mcuCtr := 0;
      yoffset := yoffset + 1;
    }
    ImcuRowPlaced(src, arrays, d, g, img, was, ctl.iMcuRow);
    if ctl.iMcuRow + 1 < d.rows {
      ctl.Advance(d, g);
      return RowCompleted;
    }
    ctl.iMcuRow := ctl.iMcuRow + 1;
    return ScanCompleted;
  }

  // A block of a component of the scan that the scan has.
  ghost predicate InPicture(d: Dims, comps: seq<nat>, c: nat, row: nat, col: nat)
    requires c < |d.comps|
  {
    c in comps && if |comps| == 1 then row < d.comps[c].height && col < d.comps[c].width
                  else row < Times(d.rows, d.comps[c].v) && col < Times(d.perRow, d.comps[c].h)
  }

  lemma AllAmong(d: Dims, comps: seq<nat>, g: ScanGeom, c: nat, row: nat, col: nat)
    requires GoodDims(d) && GoodGeom(d, comps, g) && Known(d, g) && c < |d.comps|
    ensures Among(g, Blocks(AllMcus(d, g)), c, row, col) <==> InPicture(d, comps, c, row, col)
  {
    hide Times, Rest;
    var ps := Blocks(AllMcus(d, g));
    EachBlockOnce(d, comps, g);
    hide NoneTwice, AllMcus;
    assert forall ci :: 0 <= ci < |comps| ==> GoodPart(d, comps[ci], |comps| == 1, g.parts[ci]);
    if Among(g, ps, c, row, col) {
      var k :| 0 <= k < |ps| && ps[k].ci < |g.parts| && g.parts[ps[k].ci].c == c && ps[k].row == row && ps[k].col == col;
      assert ps[k] in ps && Belongs(d, g, ps[k]);
      assert comps[ps[k].ci] == c;
    }
    if InPicture(d, comps, c, row, col) {
      var ci :| 0 <= ci < |comps| && comps[ci] == c;
      assert GoodPart(d, comps[ci], |comps| == 1, g.parts[ci]);
      var p := Pos(ci, row, col);
      assert Belongs(d, g, p);
      var k :| 0 <= k < |ps| && ps[k] == p;
    }
  }

  // After the scan: its blocks are the image's, and no others have changed.
  ghost predicate Delivered(d: Dims, comps: seq<nat>, arrays: seq<array2<CoefBlock>>, img: seq<Plane>, was: Snapshot)
    requires GoodDims(d) && IsPicture(d, img) && GoodArrays(d, arrays) && Snaps(d, was)
    reads arrays
  {
    forall c :: 0 <= c < |arrays| ==> DeliveredPlane(d, comps, c, arrays[c], img[c], was[c])
  }

  ghost predicate DeliveredPlane(d: Dims, comps: seq<nat>, c: nat, arr: array2<CoefBlock>, plane: Plane, was: seq<seq<CoefBlock>>)
    requires GoodDims(d) && c < |d.comps| && IsPlane(d.comps[c], plane)
    requires |was| == arr.Length0 && forall r :: 0 <= r < |was| ==> |was[r]| == arr.Length1
    reads arr
  {
    NotEmpty(d, c);
    forall r, x :: 0 <= r < arr.Length0 && 0 <= x < arr.Length1 ==>
      arr[r, x] == if InPicture(d, comps, c, r, x) then Shown(d.comps[c], plane, r, x) else was[r][x]
  }

  // A whole scan, called again whenever its bytes had not arrived.
  method ConsumeScan(src: McuSource, d: Dims, comps: seq<nat>, g: ScanGeom, arrays: seq<array2<CoefBlock>>, ghost img: seq<Plane>, ghost was: Snapshot)
    requires GoodDims(d) && GoodGeom(d, comps, g) && IsPicture(d, img) && GoodArrays(d, arrays) && Snaps(d, was) && Known(d, g)
    requires OfScans(d, g, AllMcus(d, g)) && src.mcus == AllContents(d, g, img, AllMcus(d, g)) && Holds(d, g, arrays, img, was, [])
    modifies src, set c | 0 <= c < |arrays| :: arrays[c]
    ensures Delivered(d, comps, arrays, img, was) && src.mcus == []
  {
    hide GoodDims, GoodGeom, IsPicture, GoodArrays, Snaps, StoredTo;
    GeomKnown(d, comps, g);
    var ctl := new Counters();
    ctl.StartPass(d, g);
    NothingPlaced(src, arrays, d, g, img, was);
    MoreRows(d);
    var progress := RowCompleted;
    while progress != ScanCompleted
      invariant fresh(ctl) && (progress == ScanCompleted <==> ctl.iMcuRow == d.rows) && ctl.iMcuRow <= d.rows
      invariant if progress == ScanCompleted then StoredTo(src, arrays, d, g, img, was, d.rows, 0, 0)
                else ctl.Valid(d, g) && StoredTo(src, arrays, d, g, img, was, ctl.iMcuRow, ctl.vertOffset, ctl.mcuCtr)
      decreases d.rows - ctl.iMcuRow, |src.arrived|
    {
      progress := ConsumeData(ctl, src, d, comps, g, arrays, img, was);
    }
    AllPlaced(src, arrays, d, comps, g, img, was);
  }

  lemma MoreRows(d: Dims)
    requires GoodDims(d)
    ensures d.rows >= 1
  {
    NotEmpty(d, 0);
  }

  lemma NothingPlaced(src: McuSource, arrays: seq<array2<CoefBlock>>, d: Dims, g: ScanGeom, img: seq<Plane>, was: Snapshot)
    requires GoodDims(d) && IsPicture(d, img) && GoodArrays(d, arrays) && Snaps(d, was) && Known(d, g)
    requires OfScans(d, g, AllMcus(d, g)) && src.mcus == AllContents(d, g, img, AllMcus(d, g)) && Holds(d, g, arrays, img, was, [])
    ensures StoredTo(src, arrays, d, g, img, was, 0, 0, 0)
  {
    hide Holds;
    assert UpTo(d, g, 0, 0, 0) == [] && Blocks([]) == [];
  }

  lemma AllPlaced(src: McuSource, arrays: seq<array2<CoefBlock>>, d: Dims, comps: seq<nat>, g: ScanGeom, img: seq<Plane>, was: Snapshot)
    requires GoodDims(d) && GoodGeom(d, comps, g) && IsPicture(d, img) && GoodArrays(d, arrays) && Snaps(d, was) && Known(d, g)
    requires StoredTo(src, arrays, d, g, img, was, d.rows, 0, 0)
    ensures Delivered(d, comps, arrays, img, was) && src.mcus == []
  {
    hide GoodDims, GoodGeom, IsPlane, Shown, Among, InPicture, AllContents, OfScans;
    assert UpTo(d, g, d.rows, 0, 0) == AllMcus(d, g);
    var whole := AllContents(d, g, img, AllMcus(d, g));
    assert |whole| == |whole| + |src.mcus|;
    forall c, r, x | 0 <= c < |arrays| && 0 <= r < arrays[c].Length0 && 0 <= x < arrays[c].Length1
      ensures Among(g, Blocks(AllMcus(d, g)), c, r, x) <==> InPicture(d, comps, c, r, x)
    {
      AllAmong(d, comps, g, c, r, x);
    }
  }

  // Every real block of every component in the scan comes through the one-pass compressor and back to its place.
  method Through(d: Dims, comps: seq<nat>, g: ScanGeom, img: seq<Plane>, arrays: seq<array2<CoefBlock>>, room: seq<bool>, arrived: seq<bool>,
                 ghost was: Snapshot)
    requires GoodDims(d) && GoodGeom(d, comps, g) && IsPicture(d, img) && GoodArrays(d, arrays) && Snaps(d, was) && Holds(d, g, arrays, img, was, [])
    modifies set c | 0 <= c < |arrays| :: arrays[c]
    ensures Delivered(d, comps, arrays, img, was)
  {
    hide GoodDims, GoodGeom, IsPicture, GoodArrays, Snaps, Holds, Delivered, AllMcus, AllContents, OfScans;
    var buf := new CoefBlock[|g.membership|](_ => seq(64, _ => 0));
    var coder := new Coder(room);
    CompressPass(coder, buf, d, comps, g, img);
    var src := new McuSource(coder.mcus, arrived);
    ConsumeScan(src, d, comps, g, arrays, img, was);
  }
}
