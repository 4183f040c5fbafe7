// The compressor's coefficient controller: in a single pass, or through full-image arrays.
module CoefController {
  import opened Geometry
  import opened McuOrder
  import opened Controllers

  // ----- the full-image arrays -----

  // The arrays have room for whole MCUs.
  ghost predicate GoodArray(d: Dims, c: nat, arr: array2<CoefBlock>)
    requires c < |d.comps|
  {
    arr.Length0 == Times(d.rows, d.comps[c].v) && arr.Length1 == Times(d.perRow, d.comps[c].h)
  }

  ghost predicate GoodArrays(d: Dims, arrays: seq<array2<CoefBlock>>) {
    && |arrays| == |d.comps| && (forall c :: 0 <= c < |arrays| ==> GoodArray(d, c, arrays[c]))
    && forall b, c :: 0 <= b < c < |arrays| ==> arrays[b] != arrays[c]
  }

  // The block rows of iMCU row i are in the array, fill-up blocks included.
  ghost predicate Loaded(d: Dims, c: nat, arr: array2<CoefBlock>, plane: Plane, i: nat)
    requires GoodDims(d) && c < |d.comps| && IsPlane(d.comps[c], plane) && GoodArray(d, c, arr)
    reads arr
  {
    NotEmpty(d, c);
    forall r, x :: Times(i, d.comps[c].v) <= r < Times(i, d.comps[c].v) + d.comps[c].v && r < arr.Length0 && 0 <= x < arr.Length1 ==>
      arr[r, x] == Shown(d.comps[c], plane, r, x)
  }

  ghost predicate AllLoaded(d: Dims, arrays: seq<array2<CoefBlock>>, img: seq<Plane>, i: nat)
    requires GoodDims(d) && IsPicture(d, img) && GoodArrays(d, arrays)
    reads arrays
  {
    forall c :: 0 <= c < |arrays| ==> Loaded(d, c, arrays[c], img[c], i)
  }

  // Where the blocks of part ci are in MCU c.
  lemma PartInside(d: Dims, comps: seq<nat>, g: ScanGeom, ci: nat, i: nat, y: nat, c: nat)
    requires GoodDims(d) && GoodGeom(d, comps, g) && Known(d, g) && ci < |g.parts| && i < d.rows && y < RowsIn(d, g, i) && c < g.perRow
    ensures var q := g.parts[ci]; var comp := d.comps[q.c];
      && TopRow(d, q, i, y) + q.mcuHeight <= Times(i, comp.v) + comp.v <= Times(d.rows, comp.v)
      && Times(c, q.mcuWidth) + q.mcuWidth <= Times(d.perRow, comp.h)
  {
    var q := g.parts[ci];
    var comp := d.comps[q.c];
    assert GoodPart(d, comps[ci], |comps| == 1, q);
    assert forall n :: Times(n, 1) == n;
    hide Times;
    TimesNext(i, comp.v);
    TimesMono(i + 1, d.rows, comp.v);
    TimesNext(c, q.mcuWidth);
    TimesMono(c + 1, g.perRow, q.mcuWidth);
    assert |g.parts| == 1 ==> q == g.parts[0];
  }

  // A block row of an MCU, out of an array.
  method GatherRow(d: Dims, g: ScanGeom, arr: array2<CoefBlock>, ci: nat, row: nat, startCol: nat, buffer0: seq<CoefBlock>,
                   ghost img: seq<Plane>, ghost before: seq<Pos>)
    returns (buffer: seq<CoefBlock>)
    requires GoodDims(d) && IsPicture(d, img) && ci < |g.parts| && g.parts[ci].c < |d.comps|
    requires OfScan(d, g, before) && buffer0 == Contents(d, g, img, before)
    requires row < arr.Length0 && startCol + g.parts[ci].mcuWidth <= arr.Length1
    requires forall x :: startCol <= x < startCol + g.parts[ci].mcuWidth ==> arr[row, x] == ShownAt(d, g, img, Pos(ci, row, x))
    ensures OfScan(d, g, before + RowBlocks(ci, row, startCol, g.parts[ci].mcuWidth))
    ensures buffer == Contents(d, g, img, before + RowBlocks(ci, row, startCol, g.parts[ci].mcuWidth))
  {
    hide GoodDims, Contents, OfScan, IsPicture, ShownAt;
    buffer := buffer0;
    ghost var ps := before;
    var xindex := 0;
    while xindex < g.parts[ci].mcuWidth
      invariant 0 <= xindex <= g.parts[ci].mcuWidth && ps == before + RowBlocks(ci, row, startCol, xindex)
      invariant OfScan(d, g, ps) && buffer == Contents(d, g, img, ps)
    {
      ghost var p := Pos(ci, row, startCol + xindex);
      ContentsSnoc(d, g, img, ps, p);
      buffer := buffer + [arr[row, startCol + xindex]];
      ps := ps + [p];
      assert before + RowBlocks(ci, row, startCol, xindex) + [p] == before + RowBlocks(ci, row, startCol, xindex + 1);
      xindex := xindex + 1;
    }
  }

  // The list of blocks of one MCU, out of the arrays.
  method GatherMcu(d: Dims, comps: seq<nat>, g: ScanGeom, arrays: seq<array2<CoefBlock>>, i: nat, y: nat, c: nat, ghost img: seq<Plane>)
    returns (buffer: seq<CoefBlock>)
    requires GoodDims(d) && GoodGeom(d, comps, g) && Known(d, g) && i < d.rows && y < RowsIn(d, g, i) && c < g.perRow
    requires IsPicture(d, img) && GoodArrays(d, arrays) && AllLoaded(d, arrays, img, i)
    ensures OfScan(d, g, McuAt(d, g, i, y, c)) && buffer == Contents(d, g, img, McuAt(d, g, i, y, c))
  {
    hide Times, GoodDims, GoodGeom, Contents, OfScan, IsPlane, RowsIn, Shown, PartBlocks, McuParts;
    buffer := [];
    ghost var ps: seq<Pos> := [];
    Nothing(d, g, img);
    NoParts(d, g, i, y, c);
    var ci := 0;
    while ci < |g.parts|
      invariant 0 <= ci <= |g.parts| && ps == McuParts(d, g, i, y, c, ci)
      invariant OfScan(d, g, ps) && buffer == Contents(d, g, img, ps)
    {
      var p := g.parts[ci];
      var startCol := Times(c, p.mcuWidth);
      PartInside(d, comps, g, ci, i, y, c);
      assert Loaded(d, p.c, arrays[p.c], img[p.c], i);
      ghost var top, before := TopRow(d, p, i, y), ps;
      McuStep(d, g, i, y, c, ci);
      var yindex := 0;
      while yindex < p.mcuHeight
        invariant 0 <= yindex <= p.mcuHeight && ps == before + PartBlocks(ci, top, startCol, p.mcuWidth, yindex)
        invariant OfScan(d, g, ps) && buffer == Contents(d, g, img, ps)
      {
        var row := TopRow(d, p, i, y) + yindex;
        ShownRow(d, g, arrays[p.c], img, ci, i, row, startCol);
        buffer := GatherRow(d, g, arrays[p.c], ci, row, startCol, buffer, img, ps);
        PartStep(before, ci, top, startCol, p.mcuWidth, yindex);
        ps := ps + RowBlocks(ci, row, startCol, p.mcuWidth);
        yindex := yindex + 1;
      }
      ci := ci + 1;
    }
  }

  // A block row of the array, within iMCU row i.
  lemma ShownRow(d: Dims, g: ScanGeom, arr: array2<CoefBlock>, img: seq<Plane>, ci: nat, i: nat, row: nat, col: nat)
    requires GoodDims(d) && IsPicture(d, img) && ci < |g.parts| && g.parts[ci].c < |d.comps| && GoodArray(d, g.parts[ci].c, arr)
    requires Loaded(d, g.parts[ci].c, arr, img[g.parts[ci].c], i)
    requires var comp := d.comps[g.parts[ci].c];
      Times(i, comp.v) <= row < Times(i, comp.v) + comp.v && row < arr.Length0 && col + g.parts[ci].mcuWidth <= arr.Length1
    ensures forall x :: col <= x < col + g.parts[ci].mcuWidth ==> arr[row, x] == ShownAt(d, g, img, Pos(ci, row, x))
  {
    hide Times, Shown;
  }

  lemma Nothing(d: Dims, g: ScanGeom, img: seq<Plane>)
    requires GoodDims(d) && IsPicture(d, img)
    ensures OfScan(d, g, []) && Contents(d, g, img, []) == []
  {
  }

  // compress_output: as much as one iMCU row, out of the arrays.
  method CompressOutput(ctl: Counters, coder: Coder, d: Dims, comps: seq<nat>, g: ScanGeom, arrays: seq<array2<CoefBlock>>,
                        ghost img: seq<Plane>, ghost base: seq<seq<CoefBlock>>)
    returns (done: bool)
    requires GoodDims(d) && GoodGeom(d, comps, g) && IsPicture(d, img) && GoodArrays(d, arrays) && ctl.iMcuRow < d.rows
    requires AllLoaded(d, arrays, img, ctl.iMcuRow) && Fed(ctl, coder, d, g, img, base)
    modifies ctl, coder
    ensures Fed(ctl, coder, d, g, img, base) && ctl.iMcuRow == old(ctl.iMcuRow) + (if done then 1 else 0)
    ensures done ==> ctl.mcuCtr == ctl.vertOffset == 0
    ensures |coder.room| <= |old(coder.room)| && (done || |coder.room| < |old(coder.room)|)
  {
    hide Times, GoodDims, GoodGeom, Contents, OfScan, RowsIn, AllLoaded, GoodArrays, IsPicture, AllContents, FedTo, Known;
    ghost var i := ctl.iMcuRow;
    var yoffset := ctl.vertOffset;
    while yoffset < ctl.rowsPerImcuRow
      invariant ctl.Valid(d, g) && ctl.iMcuRow == i && yoffset <= ctl.rowsPerImcuRow && (yoffset == ctl.rowsPerImcuRow ==> ctl.mcuCtr == 0)
      invariant FedTo(coder, d, g, img, base, i, yoffset, ctl.mcuCtr) && |coder.room| <= |old(coder.room)|
    {
      var mcuCol := ctl.mcuCtr;
      while mcuCol < g.perRow
        invariant mcuCol <= g.perRow && ctl.Valid(d, g) && ctl.iMcuRow == i
        invariant FedTo(coder, d, g, img, base, i, yoffset, mcuCol) && |coder.room| <= |old(coder.room)|
      {
        var buffer := GatherMcu(d, comps, g, arrays, ctl.iMcuRow, yoffset, mcuCol, img);
        var ok := Offer(coder, buffer, d, g, img, base, i, yoffset, mcuCol);
        if !ok {
          ctl.vertOffset := yoffset;
          ctl.mcuCtr := mcuCol;
          return false;
        }
        mcuCol := mcuCol + 1;
      }
      RowFed(coder, d, g, img, base, i, yoffset);
      ctl.mcuCtr := 0;
      yoffset := yoffset + 1;
    }
    ImcuRowFed(coder, d, g, img, base, i);
    ctl.Advance(d, g);
    return true;
  }

  // ----- filling the arrays -----

  lemma Padding(width: nat, h: nat, perRow: nat)
    requires Spans(width, h, perRow)
    ensures width + (if width % h > 0 then h - width % h else 0) == Times(perRow, h) && Times(perRow, h) / h == perRow
  {
    LastIsRest(width, h, perRow);
    TimesNext(perRow - 1, h);
    QuotientIs(Times(perRow, h), h, perRow);
  }

  // A row with real blocks: the forward DCT's, then copies of the last one's DC value.
  method FillReal(arr: array2<CoefBlock>, comp: Component, plane: Plane, row: nat, ndummy: nat)
    requires comp.h >= 1 && comp.width >= 1 && IsPlane(comp, plane) && row < comp.height && row < arr.Length0 && comp.width + ndummy <= arr.Length1
    modifies arr
    ensures forall x :: 0 <= x < comp.width + ndummy ==> arr[row, x] == Shown(comp, plane, row, x)
    ensures forall r, x :: 0 <= r < arr.Length0 && 0 <= x < arr.Length1 && r != row ==> arr[r, x] == old(arr[r, x])
  {
    var x := 0;
    while x < comp.width
      invariant 0 <= x <= comp.width && forall k :: 0 <= k < x ==> arr[row, k] == Shown(comp, plane, row, k)
      invariant forall r, k :: 0 <= r < arr.Length0 && 0 <= k < arr.Length1 && r != row ==> arr[r, k] == old(arr[r, k])
    {
      arr[row, x] := plane[row][x];
      x := x + 1;
    }
    var lastDc := arr[row, comp.width - 1][0];
    var bi := 0;
    while bi < ndummy
      invariant 0 <= bi <= ndummy && forall k :: 0 <= k < comp.width + bi ==> arr[row, k] == Shown(comp, plane, row, k)
      invariant forall r, k :: 0 <= r < arr.Length0 && 0 <= k < arr.Length1 && r != row ==> arr[r, k] == old(arr[r, k])
    {
      arr[row, comp.width + bi] := seq(64, _ => 0);
      arr[row, comp.width + bi] := arr[row, comp.width + bi][0 := lastDc];
      assert arr[row, comp.width + bi] == Dummy(lastDc);
      bi := bi + 1;
    }
  }

  // A row below the image: MCU by MCU, the DC value of the last block above.
  method FillBelow(arr: array2<CoefBlock>, comp: Component, plane: Plane, above: nat, row: nat, mcus: nat)
    requires comp.h >= 1 && comp.width >= 1 && comp.height >= 1 && IsPlane(comp, plane) && comp.height <= row == above + 1 < arr.Length0
    requires Times(mcus, comp.h) <= arr.Length1
    requires forall x :: 0 <= x < Times(mcus, comp.h) ==> arr[above, x] == Shown(comp, plane, above, x)
    modifies arr
    ensures forall x :: 0 <= x < Times(mcus, comp.h) ==> arr[row, x] == Shown(comp, plane, row, x)
    ensures forall r, x :: 0 <= r < arr.Length0 && 0 <= x < arr.Length1 && r != row ==> arr[r, x] == old(arr[r, x])
  {
    hide Times, Shown;
    var m := 0;
    TimesNone(comp.h);
    while m < mcus
      invariant 0 <= m <= mcus && Times(m, comp.h) <= arr.Length1 && forall x :: 0 <= x < Times(m, comp.h) ==> arr[row, x] == Shown(comp, plane, row, x)
      invariant forall r, x :: 0 <= r < arr.Length0 && 0 <= x < arr.Length1 && r != row ==> arr[r, x] == old(arr[r, x])
    {
      TimesNext(m, comp.h);
      TimesMono(m + 1, mcus, comp.h);
      var start := Times(m, comp.h);
      var lastDc := arr[above, start + comp.h - 1][0];
      var bi := 0;
      while bi < comp.h
        invariant 0 <= bi <= comp.h && forall x :: 0 <= x < start + bi ==> arr[row, x] == Shown(comp, plane, row, x)
        invariant forall r, x :: 0 <= r < arr.Length0 && 0 <= x < arr.Length1 && r != row ==> arr[r, x] == old(arr[r, x])
      {
        FillsBelow(comp, plane, row, m, bi);
        arr[row, start + bi] := seq(64, _ => 0);
        arr[row, start + bi] := arr[row, start + bi][0 := lastDc];
        assert arr[row, start + bi] == Dummy(lastDc);
        bi := bi + 1;
      }
      m := m + 1;
    }
  }

  // How many of the rows of iMCU row i are real.
  lemma RealRows(d: Dims, c: nat, i: nat)
    requires GoodDims(d) && c < |d.comps| && i < d.rows
    ensures var comp := d.comps[c]; var n := if i < d.rows - 1 then comp.v else LastOf(comp.height, comp.v);
      && 1 <= n <= comp.v && Times(i, comp.v) + n <= comp.height
      && (n < comp.v ==> i == d.rows - 1) && (i == d.rows - 1 ==> Times(i, comp.v) + n == comp.height)
      && Times(i, comp.v) + comp.v <= Times(d.rows, comp.v)
  {
    var comp := d.comps[c];
    LastIsRest(comp.height, comp.v, d.rows);
    hide Times;
    TimesNext(i, comp.v);
    TimesMono(i + 1, d.rows, comp.v);
    if i < d.rows - 1 { TimesMono(i + 1, d.rows - 1, comp.v); }
  }

  // The rows of a component in iMCU row i, from the top down to a row.
  ghost predicate FilledTo(d: Dims, c: nat, arr: array2<CoefBlock>, plane: Plane, i: nat, n: nat)
    requires GoodDims(d) && c < |d.comps| && IsPlane(d.comps[c], plane) && GoodArray(d, c, arr)
    reads arr
  {
    NotEmpty(d, c);
    forall r, x :: Times(i, d.comps[c].v) <= r < Times(i, d.comps[c].v) + n && r < arr.Length0 && 0 <= x < arr.Length1 ==>
      arr[r, x] == Shown(d.comps[c], plane, r, x)
  }

  ghost predicate InImcuRow(d: Dims, c: nat, i: nat, r: nat)
    requires c < |d.comps|
  {
    Times(i, d.comps[c].v) <= r < Times(i, d.comps[c].v) + d.comps[c].v
  }

  lemma RowsApart(d: Dims, c: nat, i: nat, j: nat, r: nat)
    requires c < |d.comps| && j < i && InImcuRow(d, c, j, r)
    ensures !InImcuRow(d, c, i, r)
  {
    TimesNext(j, d.comps[c].v);
    TimesMono(j + 1, i, d.comps[c].v);
  }

  // The body of compress_first_pass's loop.
  method FillComponent(d: Dims, c: nat, arr: array2<CoefBlock>, plane: Plane, i: nat)
    requires GoodDims(d) && c < |d.comps| && IsPlane(d.comps[c], plane) && GoodArray(d, c, arr) && i < d.rows
    modifies arr
    ensures Loaded(d, c, arr, plane, i)
    ensures forall r, x :: 0 <= r < arr.Length0 && 0 <= x < arr.Length1 && !InImcuRow(d, c, i, r) ==> arr[r, x] == old(arr[r, x])
    ensures forall j :: 0 <= j < i && old(Loaded(d, c, arr, plane, j)) ==> Loaded(d, c, arr, plane, j)
  {
    hide Times, Shown, LastOf;
    var comp := d.comps[c];
    NotEmpty(d, c);
    RealRows(d, c, i);
    Padding(comp.width, comp.h, d.perRow);
    var top := Times(i, comp.v);
    var blockRows := if i < d.rows - 1 then comp.v else LastOf(comp.height, comp.v);
    var ndummy := if comp.width % comp.h > 0 then comp.h - comp.width % comp.h else 0;
    var blockRow := 0;
    while blockRow < blockRows
      invariant 0 <= blockRow <= blockRows && FilledTo(d, c, arr, plane, i, blockRow)
      invariant forall r, x :: 0 <= r < arr.Length0 && 0 <= x < arr.Length1 && !(top <= r < top + comp.v) ==> arr[r, x] == old(arr[r, x])
    {
      FillReal(arr, comp, plane, top + blockRow, ndummy);
      blockRow := blockRow + 1;
    }
    if i == d.rows - 1 {
      var mcusAcross := (comp.width + ndummy) / comp.h;
      while blockRow < comp.v
        invariant blockRows <= blockRow <= comp.v && FilledTo(d, c, arr, plane, i, blockRow)
        invariant forall r, x :: 0 <= r < arr.Length0 && 0 <= x < arr.Length1 && !(top <= r < top + comp.v) ==> arr[r, x] == old(arr[r, x])
      {
        FillBelow(arr, comp, plane, top + blockRow - 1, top + blockRow, mcusAcross);
        blockRow := blockRow + 1;
      }
    }
    forall j | 0 <= j < i && old(Loaded(d, c, arr, plane, j))
      ensures Loaded(d, c, arr, plane, j)
    {
      forall r | InImcuRow(d, c, j, r)
        ensures !InImcuRow(d, c, i, r)
      {
        RowsApart(d, c, i, j, r);
      }
    }
  }

  // compress_first_pass: the image's blocks go into the arrays, and from there to the coder.
  method CompressFirstPass(ctl: Counters, coder: Coder, d: Dims, comps: seq<nat>, g: ScanGeom, arrays: seq<array2<CoefBlock>>,
                           img: seq<Plane>, ghost base: seq<seq<CoefBlock>>)
    returns (done: bool)
    requires GoodDims(d) && GoodGeom(d, comps, g) && IsPicture(d, img) && GoodArrays(d, arrays) && ctl.iMcuRow < d.rows
    requires Fed(ctl, coder, d, g, img, base) && forall j :: 0 <= j < ctl.iMcuRow ==> AllLoaded(d, arrays, img, j)
    modifies ctl, coder, set c | 0 <= c < |arrays| :: arrays[c]
    ensures Fed(ctl, coder, d, g, img, base) && ctl.iMcuRow == old(ctl.iMcuRow) + (if done then 1 else 0)
    ensures forall j :: 0 <= j < ctl.iMcuRow ==> AllLoaded(d, arrays, img, j)
    ensures done ==> ctl.mcuCtr == ctl.vertOffset == 0
    ensures |coder.room| <= |old(coder.room)| && (done || |coder.room| < |old(coder.room)|)
  {
    hide Times, GoodDims, GoodGeom, Loaded, IsPlane, FedTo, Counters.Valid;
    var i, ci := ctl.iMcuRow, 0;
    while ci < |d.comps|
      invariant 0 <= ci <= |d.comps| && ctl.iMcuRow == i && Fed(ctl, coder, d, g, img, base) && coder.room == old(coder.room)
      invariant ctl.mcuCtr == old(ctl.mcuCtr) && ctl.vertOffset == old(ctl.vertOffset)
      invariant forall j :: 0 <= j < i ==> AllLoaded(d, arrays, img, j)
      invariant forall c :: 0 <= c < ci ==> Loaded(d, c, arrays[c], img[c], i)
    {
      LoadComponent(d, ci, arrays, img[ci], i, img);
      ci := ci + 1;
    }
    done := CompressOutput(ctl, coder, d, comps, g, arrays, img, base);
  }

  method LoadComponent(d: Dims, c: nat, arrays: seq<array2<CoefBlock>>, plane: Plane, i: nat, ghost img: seq<Plane>)
    requires GoodDims(d) && IsPicture(d, img) && GoodArrays(d, arrays) && c < |d.comps| && plane == img[c] && i < d.rows
    modifies arrays[c]
    ensures Loaded(d, c, arrays[c], img[c], i)
    ensures forall j :: 0 <= j < i && old(AllLoaded(d, arrays, img, j)) ==> AllLoaded(d, arrays, img, j)
    ensures forall b :: 0 <= b < c && old(Loaded(d, b, arrays[b], img[b], i)) ==> Loaded(d, b, arrays[b], img[b], i)
  {
    hide Times, GoodDims, IsPlane, Shown, InImcuRow;
    hide Loaded;
    FillComponent(d, c, arrays[c], plane, i);
    forall j | 0 <= j < i && old(AllLoaded(d, arrays, img, j))
      ensures AllLoaded(d, arrays, img, j)
    {
    }
  }

  // A first pass over the whole image, and a later one out of the arrays, called again whenever the coder had no room.
  method FirstPass(coder: Coder, d: Dims, comps: seq<nat>, g: ScanGeom, arrays: seq<array2<CoefBlock>>, img: seq<Plane>)
    requires GoodDims(d) && GoodGeom(d, comps, g) && IsPicture(d, img) && GoodArrays(d, arrays)
    modifies coder, set c | 0 <= c < |arrays| :: arrays[c]
    ensures Known(d, g) && FedAll(coder, d, g, img, old(coder.mcus))
    ensures forall i :: 0 <= i < d.rows ==> AllLoaded(d, arrays, img, i)
  {
    hide GoodDims, GoodGeom, IsPicture, FedTo, GoodArrays, AllLoaded;
    GeomKnown(d, comps, g);
    var ctl := new Counters();
    ctl.StartPass(d, g);
    StartFed(ctl, coder, d, g, img);
    while ctl.iMcuRow < d.rows
      invariant fresh(ctl) && Fed(ctl, coder, d, g, img, old(coder.mcus)) && (ctl.iMcuRow == d.rows ==> ctl.mcuCtr == ctl.vertOffset == 0)
      invariant forall i :: 0 <= i < ctl.iMcuRow ==> AllLoaded(d, arrays, img, i)
      decreases d.rows - ctl.iMcuRow, |coder.room|
    {
      var done := CompressFirstPass(ctl, coder, d, comps, g, arrays, img, old(coder.mcus));
    }
    EndFed(ctl, coder, d, g, img, old(coder.mcus));
  }

  method OutputPass(coder: Coder, d: Dims, comps: seq<nat>, g: ScanGeom, arrays: seq<array2<CoefBlock>>, ghost img: seq<Plane>)
    requires GoodDims(d) && GoodGeom(d, comps, g) && IsPicture(d, img) && GoodArrays(d, arrays)
    requires forall i :: 0 <= i < d.rows ==> AllLoaded(d, arrays, img, i)
    modifies coder
    ensures Known(d, g) && FedAll(coder, d, g, img, old(coder.mcus))
  {
    hide GoodDims, GoodGeom, IsPicture, FedTo, GoodArrays, AllLoaded;
    GeomKnown(d, comps, g);
    var ctl := new Counters();
    ctl.StartPass(d, g);
    StartFed(ctl, coder, d, g, img);
    while ctl.iMcuRow < d.rows
      invariant fresh(ctl) && Fed(ctl, coder, d, g, img, old(coder.mcus)) && (ctl.iMcuRow == d.rows ==> ctl.mcuCtr == ctl.vertOffset == 0)
      invariant forall i :: 0 <= i < d.rows ==> AllLoaded(d, arrays, img, i)
      decreases d.rows - ctl.iMcuRow, |coder.room|
    {
      var done := CompressOutput(ctl, coder, d, comps, g, arrays, img, old(coder.mcus));
    }
    EndFed(ctl, coder, d, g, img, old(coder.mcus));
  }
}
