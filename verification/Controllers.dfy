// What the coefficient controllers of both directions share: quantized images with their fill-up blocks, the counters,
// and the entropy coder as they see it.
module Controllers {
  import opened Geometry
  import opened McuOrder

  type CoefBlock = b: seq<int> | |b| == 64 witness seq(64, _ => 0)

  // The quantized blocks of a component.
  type Plane = seq<seq<CoefBlock>>

  ghost predicate IsPicture(d: Dims, img: seq<Plane>) {
    |img| == |d.comps| && forall c :: 0 <= c < |img| ==> IsPlane(d.comps[c], img[c])
  }

  ghost predicate IsPlane(comp: Component, plane: Plane) {
    |plane| == comp.height && forall r :: 0 <= r < |plane| ==> |plane[r]| == comp.width
  }

  // A block that fills up an MCU: no AC coefficients, a DC value that costs nothing to code.
  function Dummy(dc: int): CoefBlock { [dc] + seq(63, _ => 0) }

  // The last column of the MCU that column col is in.
  function LastColumn(col: nat, h: nat): nat
    requires h >= 1
  {
    Times(col / h, h) + h - 1
  }

  function Least(a: nat, b: nat): nat { if a <= b then a else b }

  // The real block whose DC value the block at row and col has: left of it, or above it the last real one of its MCU.
  function DcSource(comp: Component, row: nat, col: nat): (nat, nat)
    requires comp.h >= 1 && comp.width >= 1 && comp.height >= 1
  {
    (Least(row, comp.height - 1), Least(if row < comp.height then col else LastColumn(col, comp.h), comp.width - 1))
  }

  // The component as the entropy coder is to see it, at any place.
  function Shown(comp: Component, plane: Plane, row: nat, col: nat): CoefBlock
    requires comp.h >= 1 && comp.width >= 1 && comp.height >= 1 && IsPlane(comp, plane)
  {
    if row < comp.height && col < comp.width then plane[row][col]
    else Dummy(plane[DcSource(comp, row, col).0][DcSource(comp, row, col).1][0])
  }

  lemma NotEmpty(d: Dims, c: nat)
    requires GoodDims(d) && c < |d.comps|
    ensures d.comps[c].h >= 1 && d.comps[c].v >= 1 && d.comps[c].width >= 1 && d.comps[c].height >= 1 && d.rows >= 1 && d.perRow >= 1
  {
  }

  ghost predicate OfScan(d: Dims, g: ScanGeom, ps: seq<Pos>) {
    forall k :: 0 <= k < |ps| ==> ps[k].ci < |g.parts| && g.parts[ps[k].ci].c < |d.comps|
  }

  ghost function ShownAt(d: Dims, g: ScanGeom, img: seq<Plane>, p: Pos): CoefBlock
    requires GoodDims(d) && IsPicture(d, img) && p.ci < |g.parts| && g.parts[p.ci].c < |d.comps|
  {
    NotEmpty(d, g.parts[p.ci].c);
    Shown(d.comps[g.parts[p.ci].c], img[g.parts[p.ci].c], p.row, p.col)
  }

  // The blocks of an MCU.
  ghost function Contents(d: Dims, g: ScanGeom, img: seq<Plane>, ps: seq<Pos>): (r: seq<CoefBlock>)
    requires GoodDims(d) && IsPicture(d, img) && OfScan(d, g, ps)
    ensures |r| == |ps| && forall k :: 0 <= k < |r| ==> r[k] == ShownAt(d, g, img, ps[k])
  {
    seq(|ps|, k requires 0 <= k < |ps| => ShownAt(d, g, img, ps[k]))
  }

  lemma ContentsSnoc(d: Dims, g: ScanGeom, img: seq<Plane>, ps: seq<Pos>, p: Pos)
    requires GoodDims(d) && IsPicture(d, img) && OfScan(d, g, ps) && p.ci < |g.parts| && g.parts[p.ci].c < |d.comps|
    ensures OfScan(d, g, ps + [p]) && Contents(d, g, img, ps + [p]) == Contents(d, g, img, ps) + [ShownAt(d, g, img, p)]
  {
    hide ShownAt;
  }

  ghost predicate OfScans(d: Dims, g: ScanGeom, mcus: seq<McuPos>) {
    forall k :: 0 <= k < |mcus| ==> OfScan(d, g, mcus[k])
  }

  // The MCUs of a list, block by block.
  ghost function AllContents(d: Dims, g: ScanGeom, img: seq<Plane>, mcus: seq<McuPos>): (r: seq<seq<CoefBlock>>)
    requires GoodDims(d) && IsPicture(d, img) && OfScans(d, g, mcus)
    ensures |r| == |mcus| && forall k :: 0 <= k < |r| ==> r[k] == Contents(d, g, img, mcus[k])
  {
    seq(|mcus|, k requires 0 <= k < |mcus| => Contents(d, g, img, mcus[k]))
  }

  lemma AllContentsSnoc(d: Dims, g: ScanGeom, img: seq<Plane>, mcus: seq<McuPos>, m: McuPos)
    requires GoodDims(d) && IsPicture(d, img) && OfScans(d, g, mcus) && OfScan(d, g, m)
    ensures OfScans(d, g, mcus + [m]) && AllContents(d, g, img, mcus + [m]) == AllContents(d, g, img, mcus) + [Contents(d, g, img, m)]
  {
    hide Contents, OfScan;
  }

  // ----- the blocks of an MCU, step by step -----

  lemma McuStep(d: Dims, g: ScanGeom, i: nat, y: nat, c: nat, ci: nat)
    requires Known(d, g) && ci < |g.parts|
    ensures var p, before := g.parts[ci], McuParts(d, g, i, y, c, ci);
      && before + PartBlocks(ci, TopRow(d, p, i, y), Times(c, p.mcuWidth), p.mcuWidth, 0) == before
      && McuParts(d, g, i, y, c, ci + 1) == before + PartBlocks(ci, TopRow(d, p, i, y), Times(c, p.mcuWidth), p.mcuWidth, p.mcuHeight)
  {
  }

  lemma NoParts(d: Dims, g: ScanGeom, i: nat, y: nat, c: nat)
    requires Known(d, g)
    ensures McuParts(d, g, i, y, c, 0) == []
  {
  }

  lemma PartStep(before: seq<Pos>, ci: nat, top: nat, col: nat, width: nat, y: nat)
    ensures before + PartBlocks(ci, top, col, width, y + 1) == before + PartBlocks(ci, top, col, width, y) + RowBlocks(ci, top + y, col, width)
  {
  }

  // ----- where fill-up blocks take their DC value from -----

  lemma ShownDc(comp: Component, plane: Plane, row: nat, col: nat)
    requires comp.h >= 1 && comp.width >= 1 && comp.height >= 1 && IsPlane(comp, plane)
    ensures DcSource(comp, row, col).0 < |plane| && DcSource(comp, row, col).1 < |plane[DcSource(comp, row, col).0]|
    ensures Shown(comp, plane, row, col)[0] == plane[DcSource(comp, row, col).0][DcSource(comp, row, col).1][0]
  {
  }

  lemma FillsRight(comp: Component, plane: Plane, row: nat, col: nat)
    requires comp.h >= 1 && comp.width >= 1 && comp.height >= 1 && IsPlane(comp, plane) && row < comp.height && comp.width <= col
    ensures col >= 1 && Shown(comp, plane, row, col) == Dummy(Shown(comp, plane, row, col - 1)[0])
  {
    ShownDc(comp, plane, row, col - 1);
  }

  lemma LastColumnIs(c: nat, h: nat, k: nat)
    requires k < h
    ensures LastColumn(Times(c, h) + k, h) == Times(c, h) + h - 1
  {
    QuotientIs(Times(c, h) + k, h, c);
  }

  // Below the image, every block of an MCU row has the DC value of the last block of the row above it.
  lemma FillsBelow(comp: Component, plane: Plane, row: nat, c: nat, k: nat)
    requires comp.h >= 1 && comp.width >= 1 && comp.height >= 1 && IsPlane(comp, plane) && comp.height <= row && k < comp.h
    ensures row >= 1 && Shown(comp, plane, row, Times(c, comp.h) + k) == Dummy(Shown(comp, plane, row - 1, Times(c, comp.h) + comp.h - 1)[0])
  {
    hide Times;
    ShownDc(comp, plane, row - 1, Times(c, comp.h) + comp.h - 1);
    LastColumnIs(c, comp.h, k);
    LastColumnIs(c, comp.h, comp.h - 1);
  }

  // ----- MCU_membership -----

  lemma {:induction false} PartMembers(ci: nat, row: nat, col: nat, width: nat, n: nat)
    ensures |RowBlocks(ci, row, col, width)| == width && |PartBlocks(ci, row, col, width, n)| == Times(n, width)
    ensures forall p :: p in PartBlocks(ci, row, col, width, n) ==> p.ci == ci
  {
    PartOnce(ci, row, col, width, n);
    RowLength(ci, row, col, width);
    if n > 0 {
      PartMembers(ci, row, col, width, n - 1);
      RowLength(ci, row + n - 1, col, width);
      TimesNext(n - 1, width);
    } else {
      TimesNone(width);
    }
  }

  lemma {:induction false} RowLength(ci: nat, row: nat, col: nat, n: nat)
    ensures |RowBlocks(ci, row, col, n)| == n
  {
    if n > 0 { RowLength(ci, row, col, n - 1); }
  }

  // Block k of any MCU belongs to component MCU_membership[k] of the scan.
  lemma {:induction false} MembershipTells(d: Dims, g: ScanGeom, i: nat, y: nat, c: nat, n: nat)
    requires Known(d, g) && n <= |g.parts|
    ensures |McuParts(d, g, i, y, c, n)| == |Members(g.parts[..n])|
    ensures forall k :: 0 <= k < |McuParts(d, g, i, y, c, n)| ==> McuParts(d, g, i, y, c, n)[k].ci == Members(g.parts[..n])[k]
  {
    if n > 0 {
      var q := g.parts[n - 1];
      MembershipTells(d, g, i, y, c, n - 1);
      assert g.parts[..n][..n - 1] == g.parts[..n - 1] && g.parts[..n][n - 1] == q;
      var row, col := TopRow(d, q, i, y), Times(c, q.mcuWidth);
      PartMembers(n - 1, row, col, q.mcuWidth, q.mcuHeight);
      assert Times(q.mcuHeight, q.mcuWidth) == Times(q.mcuWidth, q.mcuHeight);
      hide Times;
      var last := PartBlocks(n - 1, row, col, q.mcuWidth, q.mcuHeight);
      forall k | 0 <= k < |last|
        ensures last[k].ci == n - 1
      {
        assert last[k] in last;
      }
    }
  }

  // ----- the counters -----

  // iMCU_row_num, mcu_ctr, MCU_vert_offset and MCU_rows_per_iMCU_row
  class Counters {
    var iMcuRow: nat
    var mcuCtr: nat
    var vertOffset: nat
    var rowsPerImcuRow: nat

    constructor ()
      ensures iMcuRow == 0
    {
      iMcuRow, mcuCtr, vertOffset, rowsPerImcuRow := 0, 0, 0, 0;
    }

    // start_iMCU_row
    method StartImcuRow(d: Dims, g: ScanGeom)
      requires Known(d, g) && g.parts != []
      modifies this`mcuCtr, this`vertOffset, this`rowsPerImcuRow
      ensures mcuCtr == vertOffset == 0 && rowsPerImcuRow == RowsIn(d, g, iMcuRow)
    {
      if |g.parts| > 1 {
        rowsPerImcuRow := 1;
      } else if iMcuRow < d.rows - 1 {
        rowsPerImcuRow := d.comps[g.parts[0].c].v;
      } else {
        rowsPerImcuRow := g.parts[0].lastRowHeight;
      }
      mcuCtr, vertOffset := 0, 0;
    }

    // start_pass_coef, start_input_pass
    method StartPass(d: Dims, g: ScanGeom)
      requires Known(d, g) && g.parts != []
      modifies this
      ensures Valid(d, g) && iMcuRow == mcuCtr == vertOffset == 0
    {
      iMcuRow := 0;
      StartImcuRow(d, g);
    }

    ghost predicate Valid(d: Dims, g: ScanGeom)
      reads this
    {
      && Known(d, g) && g.parts != [] && iMcuRow <= d.rows && rowsPerImcuRow == RowsIn(d, g, iMcuRow)
      && vertOffset <= rowsPerImcuRow && mcuCtr <= g.perRow && (vertOffset == rowsPerImcuRow ==> mcuCtr == 0)
    }

    // On to the next iMCU row.
    method Advance(d: Dims, g: ScanGeom)
      requires Known(d, g) && g.parts != [] && iMcuRow < d.rows
      modifies this
      ensures Valid(d, g) && iMcuRow == old(iMcuRow) + 1 && mcuCtr == vertOffset == 0
    {
      iMcuRow := iMcuRow + 1;
      StartImcuRow(d, g);
    }
  }

  // The MCUs before the one at a place.
  ghost function UpTo(d: Dims, g: ScanGeom, i: nat, y: nat, c: nat): (mcus: seq<McuPos>)
    requires Known(d, g)
    ensures c == 0 && y == 0 ==> mcus == ScanMcus(d, g, i)
  {
    ScanMcus(d, g, i) + McuRows(d, g, i, y) + McuRow(d, g, i, y, c)
  }

  lemma NextMcu(d: Dims, g: ScanGeom, i: nat, y: nat, c: nat)
    requires Known(d, g)
    ensures UpTo(d, g, i, y, c + 1) == UpTo(d, g, i, y, c) + [McuAt(d, g, i, y, c)]
  {
  }

  lemma NextRow(d: Dims, g: ScanGeom, i: nat, y: nat)
    requires Known(d, g)
    ensures UpTo(d, g, i, y + 1, 0) == UpTo(d, g, i, y, g.perRow)
  {
  }

  lemma NextImcuRow(d: Dims, g: ScanGeom, i: nat)
    requires Known(d, g)
    ensures UpTo(d, g, i, RowsIn(d, g, i), 0) == ScanMcus(d, g, i + 1)
  {
  }

  // ----- the entropy coder -----

  // The MCUs that went in; room says for each coming call whether the destination has room, which it has at last.
  class Coder {
    var mcus: seq<seq<CoefBlock>>
    var room: seq<bool>

    constructor (room: seq<bool>)
      ensures mcus == [] && this.room == room
    {
      mcus, this.room := [], room;
    }

    // encode_mcu
    method EncodeMcu(mcu: seq<CoefBlock>) returns (ok: bool)
      modifies this
      ensures ok <==> old(room) == [] || old(room)[0]
      ensures mcus == if ok then old(mcus) + [mcu] else old(mcus)
      ensures room == if old(room) == [] then [] else old(room)[1..]
    {
      ok := room == [] || room[0];
      if room != [] { room := room[1..]; }
      if ok { mcus := mcus + [mcu]; }
    }
  }

  // The coder has been given the image's MCUs up to a place in the scan.
  ghost predicate FedTo(coder: Coder, d: Dims, g: ScanGeom, img: seq<Plane>, base: seq<seq<CoefBlock>>, i: nat, y: nat, c: nat)
    requires GoodDims(d) && IsPicture(d, img) && Known(d, g)
    reads coder
  {
    OfScans(d, g, UpTo(d, g, i, y, c)) && coder.mcus == base + AllContents(d, g, img, UpTo(d, g, i, y, c))
  }

  ghost predicate Fed(ctl: Counters, coder: Coder, d: Dims, g: ScanGeom, img: seq<Plane>, base: seq<seq<CoefBlock>>)
    requires GoodDims(d) && IsPicture(d, img)
    reads ctl, coder
  {
    ctl.Valid(d, g) && FedTo(coder, d, g, img, base, ctl.iMcuRow, ctl.vertOffset, ctl.mcuCtr)
  }

  // One MCU more, unless there is no room for it.
  method Offer(coder: Coder, mcu: seq<CoefBlock>, ghost d: Dims, ghost g: ScanGeom, ghost img: seq<Plane>, ghost base: seq<seq<CoefBlock>>,
               ghost i: nat, ghost y: nat, ghost c: nat)
    returns (ok: bool)
    requires GoodDims(d) && IsPicture(d, img) && Known(d, g) && FedTo(coder, d, g, img, base, i, y, c)
    requires OfScan(d, g, McuAt(d, g, i, y, c)) && mcu == Contents(d, g, img, McuAt(d, g, i, y, c))
    modifies coder
    ensures FedTo(coder, d, g, img, base, i, y, if ok then c + 1 else c)
    ensures |coder.room| <= |old(coder.room)| && (ok || |coder.room| < |old(coder.room)|)
  {
    hide GoodDims, IsPicture, Contents, OfScan, OfScans, UpTo, AllContents;
    NextMcu(d, g, i, y, c);
    AllContentsSnoc(d, g, img, UpTo(d, g, i, y, c), McuAt(d, g, i, y, c));
    ok := coder.EncodeMcu(mcu);
    if ok { assert base + AllContents(d, g, img, UpTo(d, g, i, y, c)) + [mcu] == base + (AllContents(d, g, img, UpTo(d, g, i, y, c)) + [mcu]); }
  }

  lemma RowFed(coder: Coder, d: Dims, g: ScanGeom, img: seq<Plane>, base: seq<seq<CoefBlock>>, i: nat, y: nat)
    requires GoodDims(d) && IsPicture(d, img) && Known(d, g) && FedTo(coder, d, g, img, base, i, y, g.perRow)
    ensures FedTo(coder, d, g, img, base, i, y + 1, 0)
  {
    NextRow(d, g, i, y);
  }

  lemma ImcuRowFed(coder: Coder, d: Dims, g: ScanGeom, img: seq<Plane>, base: seq<seq<CoefBlock>>, i: nat)
    requires GoodDims(d) && IsPicture(d, img) && Known(d, g) && FedTo(coder, d, g, img, base, i, RowsIn(d, g, i), 0)
    ensures FedTo(coder, d, g, img, base, i + 1, 0, 0)
  {
    NextImcuRow(d, g, i);
  }

  // All the MCUs of the image.
  ghost predicate FedAll(coder: Coder, d: Dims, g: ScanGeom, img: seq<Plane>, base: seq<seq<CoefBlock>>)
    requires GoodDims(d) && IsPicture(d, img) && Known(d, g)
    reads coder
  {
    OfScans(d, g, AllMcus(d, g)) && coder.mcus == base + AllContents(d, g, img, AllMcus(d, g))
  }

  lemma StartFed(ctl: Counters, coder: Coder, d: Dims, g: ScanGeom, img: seq<Plane>)
    requires GoodDims(d) && IsPicture(d, img) && ctl.Valid(d, g) && ctl.iMcuRow == ctl.vertOffset == ctl.mcuCtr == 0
    ensures Fed(ctl, coder, d, g, img, coder.mcus)
  {
  }

  lemma EndFed(ctl: Counters, coder: Coder, d: Dims, g: ScanGeom, img: seq<Plane>, base: seq<seq<CoefBlock>>)
    requires GoodDims(d) && IsPicture(d, img) && Fed(ctl, coder, d, g, img, base)
    requires ctl.iMcuRow == d.rows && ctl.vertOffset == ctl.mcuCtr == 0
    ensures FedAll(coder, d, g, img, base)
  {
  }
}
