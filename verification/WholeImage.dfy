// A quantized image from its blocks to its blocks: geometry, controllers' order, every scan of a script, either entropy coder.
module WholeImage {
  import opened Numbers
  import opened Geometry
  import opened McuOrder
  import opened Controllers
  import opened Scans
  import opened ScanScript
  import opened Telescope
  import opened HuffTable
  import opened HuffTokens
  import opened HuffMerge
  import opened HuffOptimal
  import opened HuffDecodeScan
  import opened HuffTransmission
  import opened ScanPlans
  import Image = Transmission
  import CoefController
  import CoefOnePass
  import CoefDecode

  // ----- the image as one row of blocks -----

  function BlockAt(d: Dims, img: seq<Plane>, b: nat): CoefBlock
    requires GoodDims(d) && IsPicture(d, img) && b < Base(d, |d.comps|)
  {
    StartsBefore(d, |d.comps|, b);
    var c := ComponentOf(d, |d.comps|)[b];
    NotEmpty(d, c);
    PositiveAcross(d, c);
    Shown(d.comps[c], img[c], (b - Base(d, c)) / Across(d, c), (b - Base(d, c)) % Across(d, c))
  }

  lemma PositiveAcross(d: Dims, c: nat)
    requires GoodDims(d) && c < |d.comps|
    ensures Across(d, c) >= 1
  {
    assert Spans(d.comps[c].width, d.comps[c].h, d.perRow);
  }

  // The full-image arrays of the compressor.
  function CoefsOf(d: Dims, img: seq<Plane>): (coefs: seq<int>)
    requires GoodDims(d) && IsPicture(d, img)
    ensures |coefs| == 64 * Base(d, |d.comps|)
  {
    seq(64 * Base(d, |d.comps|), j requires 0 <= j < 64 * Base(d, |d.comps|) => BlockAt(d, img, j / 64)[j % 64])
  }

  lemma BlockOfPlace(d: Dims, img: seq<Plane>, c: nat, row: nat, col: nat)
    requires GoodDims(d) && IsPicture(d, img) && Fitting(d, c, row, col)
    ensures Index(d, c, row, col) < Base(d, |d.comps|)
    ensures BlockAt(d, img, Index(d, c, row, col)) == (NotEmpty(d, c); Shown(d.comps[c], img[c], row, col))
  {
    hide Times, Shown;
    LayoutAt(d, |d.comps|, c, row, col);
    IndexBounds(d, c, row, col);
    RowOf(row, Across(d, c), col);
  }

  lemma BlockOfCoefs(d: Dims, img: seq<Plane>, b: nat)
    requires GoodDims(d) && IsPicture(d, img) && b < Base(d, |d.comps|)
    ensures Scans.Block(CoefsOf(d, img), b) == BlockAt(d, img, b)
  {
    hide BlockAt, Base;
    var s := Scans.Block(CoefsOf(d, img), b);
    forall k | 0 <= k < 64
      ensures s[k] == BlockAt(d, img, b)[k]
    {
      assert (64 * b + k) / 64 == b && (64 * b + k) % 64 == k;
    }
  }

  // What the controllers hand to the entropy coder is what the scan theorems call the blocks of the MCU.
  lemma SameBlocks(d: Dims, comps: seq<nat>, g: ScanGeom, img: seq<Plane>, m: nat)
    requires GoodDims(d) && GoodGeom(d, comps, g) && IsPicture(d, img) && Known(d, g) && m < |AllMcus(d, g)|
    ensures OfScan(d, g, AllMcus(d, g)[m]) && AllKnown(d, g, AllMcus(d, g)[m])
    ensures var ps := AllMcus(d, g)[m]; var mcu := McuOf(d, g, ps);
      forall k :: 0 <= k < |ps| ==> mcu[k].blk < Base(d, |d.comps|) && Contents(d, g, img, ps)[k] == Scans.Block(CoefsOf(d, img), mcu[k].blk)
  {
    hide AllMcus, GoodDims, GoodGeom, Index, Shown, Base;
    McusKnown(d, comps, g);
    EachBlockOnce(d, comps, g);
    var ps := AllMcus(d, g)[m];
    forall k | 0 <= k < |ps|
      ensures var v := VisitOf(d, g, ps[k]);
        v.blk < Base(d, |d.comps|) && ShownAt(d, g, img, ps[k]) == Scans.Block(CoefsOf(d, img), v.blk)
    {
      BlockAmong(AllMcus(d, g), m, k);
      PlaceOfBlock(d, comps, g, ps[k]);
      BlockOfPlace(d, img, g.parts[ps[k].ci].c, ps[k].row, ps[k].col);
      BlockOfCoefs(d, img, VisitOf(d, g, ps[k]).blk);
    }
  }

  // The blocks an MCU visits in the coefficient arrays.
  function BlocksOf(coefs: seq<int>, mcu: seq<Visit>): (r: seq<CoefBlock>)
    requires forall k :: 0 <= k < |mcu| ==> 64 * mcu[k].blk + 64 <= |coefs|
  {
    seq(|mcu|, k requires 0 <= k < |mcu| => Scans.Block(coefs, mcu[k].blk))
  }

  // The MCUs of a scan are what the entropy coder's plan visits in the arrays.
  ghost predicate AreVisited(d: Dims, g: ScanGeom, coefs: seq<int>, mcus: seq<seq<CoefBlock>>) {
    && Workable(d, g) && |mcus| == |AllMcus(d, g)|
    && forall m :: 0 <= m < |mcus| ==> Visited(coefs, McuOf(d, g, AllMcus(d, g)[m]), mcus[m])
  }

  ghost predicate Visited(coefs: seq<int>, mcu: seq<Visit>, blocks: seq<CoefBlock>) {
    (forall k :: 0 <= k < |mcu| ==> 64 * mcu[k].blk + 64 <= |coefs|) && blocks == BlocksOf(coefs, mcu)
  }

  lemma SameMcus(d: Dims, comps: seq<nat>, g: ScanGeom, img: seq<Plane>)
    requires GoodDims(d) && GoodGeom(d, comps, g) && IsPicture(d, img)
    ensures Known(d, g) && OfScans(d, g, AllMcus(d, g)) && AreVisited(d, g, CoefsOf(d, img), AllContents(d, g, img, AllMcus(d, g)))
    ensures forall mcus :: AreVisited(d, g, CoefsOf(d, img), mcus) ==> mcus == AllContents(d, g, img, AllMcus(d, g))
  {
    hide AllMcus, GoodDims, GoodGeom, Base, Contents, Scans.Block;
    McusKnown(d, comps, g);
    var coefs := CoefsOf(d, img);
    forall m | 0 <= m < |AllMcus(d, g)|
      ensures OfScan(d, g, AllMcus(d, g)[m])
      ensures Visited(coefs, McuOf(d, g, AllMcus(d, g)[m]), Contents(d, g, img, AllMcus(d, g)[m]))
    {
      SameBlocks(d, comps, g, img, m);
    }
    forall mcus | AreVisited(d, g, coefs, mcus)
      ensures mcus == AllContents(d, g, img, AllMcus(d, g))
    {
      assert forall m :: 0 <= m < |mcus| ==> Visited(coefs, McuOf(d, g, AllMcus(d, g)[m]), mcus[m]);
    }
  }

  // The one-pass controller hands the entropy coder the blocks that the scan theorems say it codes, whenever it has room for them.
  method FeedCoder(coder: Coder, buf: array<CoefBlock>, d: Dims, comps: seq<nat>, g: ScanGeom, img: seq<Plane>)
    requires GoodDims(d) && GoodGeom(d, comps, g) && IsPicture(d, img) && |g.membership| <= buf.Length
    modifies coder, buf
    ensures old(coder.mcus) <= coder.mcus && AreVisited(d, g, CoefsOf(d, img), coder.mcus[|old(coder.mcus)|..])
  {
    SameMcus(d, comps, g, img);
    hide *;
    CoefOnePass.CompressPass(coder, buf, d, comps, g, img);
  }

  // And from the blocks that they say the entropy decoder restores, the decoder's controller fills the arrays, whenever they arrive.
  method StoreDecoded(src: CoefDecode.McuSource, d: Dims, comps: seq<nat>, g: ScanGeom, arrays: seq<array2<CoefBlock>>,
                      ghost img: seq<Plane>, ghost was: CoefDecode.Snapshot)
    requires GoodDims(d) && GoodGeom(d, comps, g) && IsPicture(d, img) && CoefController.GoodArrays(d, arrays) && CoefDecode.Snaps(d, was) && Known(d, g)
    requires AreVisited(d, g, CoefsOf(d, img), src.mcus) && CoefDecode.Holds(d, g, arrays, img, was, [])
    modifies src, set c | 0 <= c < |arrays| :: arrays[c]
    ensures CoefDecode.Delivered(d, comps, arrays, img, was) && src.mcus == []
  {
    SameMcus(d, comps, g, img);
    hide *;
    CoefDecode.ConsumeScan(src, d, comps, g, arrays, img, was);
  }

  // ----- all scans of a script -----

  ghost predicate GoodGeoms(d: Dims, scans: seq<ScanInfo>, gs: seq<ScanGeom>) {
    |gs| == |scans| && forall i :: 0 <= i < |scans| ==> GeomFor(d, scans[i], gs[i])
  }

  ghost predicate Workable(d: Dims, g: ScanGeom) {
    Known(d, g) && forall m :: 0 <= m < |AllMcus(d, g)| ==> AllKnown(d, g, AllMcus(d, g)[m])
  }

  lemma GeomWorkable(d: Dims, s: ScanInfo, g: ScanGeom)
    requires GoodDims(d) && GeomFor(d, s, g)
    ensures Workable(d, g)
  {
    hide GoodDims, GoodGeom, AllMcus;
    var comps :| GoodGeom(d, comps, g) && SameComps(comps, s);
    McusKnown(d, comps, g);
  }

  // How the controllers take the entropy coders through each scan.
  function PlansOf(d: Dims, scans: seq<ScanInfo>, gs: seq<ScanGeom>, intervals: seq<nat>): (plans: seq<Plan>)
    requires GoodDims(d) && GoodGeoms(d, scans, gs) && |intervals| == |scans|
    ensures |plans| == |scans|
    ensures forall i :: 0 <= i < |scans| ==> Workable(d, gs[i]) && plans[i] == PlanOf(d, gs[i], intervals[i])
  {
    assert forall i :: 0 <= i < |scans| ==> Workable(d, gs[i]) by {
      forall i | 0 <= i < |scans| ensures Workable(d, gs[i]) { GeomWorkable(d, scans[i], gs[i]); }
    }
    seq(|scans|, i requires 0 <= i < |scans| && Workable(d, gs[i]) => PlanOf(d, gs[i], intervals[i]))
  }

  // They are plans as both entropy coders need them.
  lemma PlansGood(f: Frame, d: Dims, scans: seq<ScanInfo>, gs: seq<ScanGeom>, intervals: seq<nat>)
    requires GoodDims(d) && GoodGeoms(d, scans, gs) && |intervals| == |scans| && f.lay == LayoutOf(d) && f.n == |d.comps| && LegalScript(f.n, scans)
    ensures |f.lay.comp| == |f.lay.isReal| && GoodHuffPlans(f, scans, PlansOf(d, scans, gs, intervals))
  {
    hide GoodDims, GoodGeom, LegalScript, Distinct, Covers, GoodShape, PlanOf, AllMcus;
    var plans := PlansOf(d, scans, gs, intervals);
    LayoutFits(d, |d.comps|);
    forall i | 0 <= i < |scans|
      ensures GoodShape(scans[i], plans[i]) && Distinct(Flat(Segments(plans[i]))) && Covers(f.lay, scans[i], Flat(Segments(plans[i])))
    {
      assert GeomFor(d, scans[i], gs[i]);
      var comps :| GoodGeom(d, comps, gs[i]) && SameComps(comps, scans[i]);
      LegalParts(f.n, scans, i);
      PlanServes(d, comps, gs[i], scans[i], intervals[i]);
    }
  }

  lemma LegalParts(n: nat, scans: seq<ScanInfo>, i: nat)
    requires LegalScript(n, scans) && i < |scans|
    ensures GoodComps(n, scans[i]) && scans[i].ss >= 0 && (scans[i].ss > 0 ==> |scans[i].comps| == 1)
  {
    hide LegalScript, Follows;
    LegalCarries(n, scans, i);
  }

  ghost predicate ScanSetUp(l: Limits, d: Dims, s: ScanInfo) {
    exists comps :: SameComps(comps, s) && (forall ci :: 0 <= ci < |comps| ==> comps[ci] < |d.comps|)
      && (|comps| == 1 || (0 < |comps| <= l.maxCompsInScan && TotalBlocks(d, comps) <= l.maxBlocksInMcu))
  }

  // per_scan_setup for every scan; a scan whose MCUs would have too many blocks cannot be set up.
  method SetUpScans(l: Limits, d: Dims, scans: seq<ScanInfo>) returns (ok: bool, gs: seq<ScanGeom>)
    requires GoodDims(d) && LegalScript(|d.comps|, scans)
    ensures ok <==> forall i :: 0 <= i < |scans| ==> ScanSetUp(l, d, scans[i])
    ensures ok ==> GoodGeoms(d, scans, gs)
  {
    hide GoodDims, GoodGeom, LegalScript, TotalBlocks;
    ok, gs := true, [];
    var i := 0;
    while i < |scans|
      invariant 0 <= i <= |scans| && ok && |gs| == i && forall k :: 0 <= k < i ==> ScanSetUp(l, d, scans[k]) && GeomFor(d, scans[k], gs[k])
    {
      LegalParts(|d.comps|, scans, i);
      var s := scans[i];
      var comps := seq(|s.comps|, k requires 0 <= k < |s.comps| && s.comps[k] >= 0 => s.comps[k] as nat);
      var g;
      ok, g := PerScanSetup(l, d, comps);
      OneWay(l, d, s, comps);
      if !ok {
        return;
      }
      gs := gs + [g];
      i := i + 1;
    }
  }

  lemma OneWay(l: Limits, d: Dims, s: ScanInfo, comps: seq<nat>)
    requires SameComps(comps, s) && forall ci :: 0 <= ci < |comps| ==> comps[ci] < |d.comps|
    ensures ScanSetUp(l, d, s) <==> |comps| == 1 || (0 < |comps| <= l.maxCompsInScan && TotalBlocks(d, comps) <= l.maxBlocksInMcu)
  {
    hide TotalBlocks;
    if ScanSetUp(l, d, s) {
      var other :| SameComps(other, s) && (forall ci :: 0 <= ci < |other| ==> other[ci] < |d.comps|)
        && (|other| == 1 || (0 < |other| <= l.maxCompsInScan && TotalBlocks(d, other) <= l.maxBlocksInMcu));
      assert other == comps;
    }
  }

  // ----- there and back -----

  // Every block of the image is at its place in the decoder's coefficient area.
  ghost predicate Arrived(d: Dims, img: seq<Plane>, area: seq<int>)
    requires IsPicture(d, img) && |area| == 64 * Base(d, |d.comps|)
  {
    forall c, row, col :: 0 <= c < |d.comps| && 0 <= row < d.comps[c].height && 0 <= col < d.comps[c].width ==>
      Index(d, c, row, col) < Base(d, |d.comps|) && Scans.Block(area, Index(d, c, row, col)) == img[c][row][col]
  }

  lemma RealFits(d: Dims, c: nat, row: nat, col: nat)
    requires GoodDims(d) && c < |d.comps| && row < d.comps[c].height && col < d.comps[c].width
    ensures Fitting(d, c, row, col)
  {
    hide Times;
    assert Spans(d.comps[c].width, d.comps[c].h, d.perRow) && Spans(d.comps[c].height, d.comps[c].v, d.rows);
  }

  lemma SameRealArrived(f: Frame, d: Dims, img: seq<Plane>, area: seq<int>)
    requires GoodDims(d) && IsPicture(d, img) && |area| == 64 * Base(d, |d.comps|) && f.lay == LayoutOf(d)
    requires |f.lay.comp| == |f.lay.isReal| == Base(d, |d.comps|) && Image.SameReal(area, CoefsOf(d, img), f.lay)
    ensures Arrived(d, img, area)
  {
    hide GoodDims, Index, Base, Shown, Across;
    forall c, row, col | 0 <= c < |d.comps| && 0 <= row < d.comps[c].height && 0 <= col < d.comps[c].width
      ensures Index(d, c, row, col) < Base(d, |d.comps|) && Scans.Block(area, Index(d, c, row, col)) == img[c][row][col]
    {
      RealFits(d, c, row, col);
      LayoutAt(d, |d.comps|, c, row, col);
      BlockOfPlace(d, img, c, row, col);
      BlockOfCoefs(d, img, Index(d, c, row, col));
      NotEmpty(d, c);
      ShownReal(d, c, img, row, col);
    }
  }

  lemma ShownReal(d: Dims, c: nat, img: seq<Plane>, row: nat, col: nat)
    requires GoodDims(d) && IsPicture(d, img) && c < |d.comps| && row < d.comps[c].height && col < d.comps[c].width
    ensures (NotEmpty(d, c); Shown(d.comps[c], img[c], row, col)) == img[c][row][col]
  {
  }

  ghost predicate PlaneWithin(plane: Plane, bound: int) {
    forall r, x, k :: 0 <= r < |plane| && 0 <= x < |plane[r]| && 0 <= k < 64 ==> -bound < plane[r][x][k] < bound
  }

  ghost predicate PictureWithin(img: seq<Plane>, bound: int) { bound > 0 && forall c :: 0 <= c < |img| ==> PlaneWithin(img[c], bound) }

  lemma CoefsWithin(d: Dims, img: seq<Plane>, bound: int)
    requires GoodDims(d) && IsPicture(d, img) && PictureWithin(img, bound)
    ensures forall j :: 0 <= j < |CoefsOf(d, img)| ==> -bound < CoefsOf(d, img)[j] < bound
  {
    hide Base;
    forall j | 0 <= j < |CoefsOf(d, img)|
      ensures -bound < CoefsOf(d, img)[j] < bound
    {
      BlockWithin(d, img, bound, j / 64, j % 64);
    }
  }

  lemma BlockWithin(d: Dims, img: seq<Plane>, bound: int, b: nat, k: nat)
    requires GoodDims(d) && IsPicture(d, img) && PictureWithin(img, bound) && b < Base(d, |d.comps|) && k < 64
    ensures -bound < BlockAt(d, img, b)[k] < bound
  {
    hide GoodDims, Base, ComponentOf, LastColumn;
    StartsBefore(d, |d.comps|, b);
    var c := ComponentOf(d, |d.comps|)[b];
    NotEmpty(d, c);
    PositiveAcross(d, c);
    hide Across;
    assert PlaneWithin(img[c], bound) && IsPlane(d.comps[c], img[c]);
  }

  lemma CoefsAreImage(d: Dims, img: seq<Plane>, bound: int)
    requires GoodDims(d) && IsPicture(d, img) && PictureWithin(img, bound) && bound <= 0x8000
    ensures IsImage(CoefsOf(d, img))
  {
    CoefsWithin(d, img, bound);
  }

  // With arithmetic coding.
  method SendArithmetic(f: Frame, d: Dims, scans: seq<ScanInfo>, gs: seq<ScanGeom>, intervals: seq<nat>, img: seq<Plane>, tails: seq<seq<Byte>>)
    returns (area: array<int>)
    requires GoodDims(d) && GoodGeoms(d, scans, gs) && |intervals| == |scans| == |tails| && IsPicture(d, img) && PictureWithin(img, 0x4000)
    requires f.lay == LayoutOf(d) && f.n == |d.comps| && f.Ok(64 * Base(d, |d.comps|)) && LegalScript(f.n, scans)
    requires forall i :: 0 <= i < |tails| ==> Image.Ended(tails[i], [])
    ensures fresh(area) && area.Length == 64 * Base(d, |d.comps|) && Image.Stage(f, scans, |scans|, area[..], CoefsOf(d, img))
    ensures Image.Complete(f.n, PosAfter(f.n, scans, |scans|)) ==> Arrived(d, img, area[..])
  {
    PlansGood(f, d, scans, gs, intervals);
    CoefsWithin(d, img, 0x4000);
    LayoutFits(d, |d.comps|);
    hide *;
    var plans := PlansOf(d, scans, gs, intervals);
    var status;
    status, area := Image.Transmit(f, scans, AllSegments(plans), CoefsOf(d, img), tails);
    if Image.Complete(f.n, PosAfter(f.n, scans, |scans|)) { SameRealArrived(f, d, img, area[..]); }
  }

  // No scan has as many symbols as the bound.
  ghost predicate PlansFit(f: Frame, d: Dims, scans: seq<ScanInfo>, gs: seq<ScanGeom>, intervals: seq<nat>, img: seq<Plane>, bound: nat)
    requires GoodDims(d) && GoodGeoms(d, scans, gs) && |intervals| == |scans| && IsPicture(d, img)
    requires f.lay == LayoutOf(d) && f.n == |d.comps| && HuffFrame(f, 64 * Base(d, |d.comps|)) && LegalScript(f.n, scans)
  {
    PlansGood(f, d, scans, gs, intervals);
    Bounded(f, scans, PlansOf(d, scans, gs, intervals), CoefsOf(d, img), bound)
  }

  // With Huffman coding, each scan's tables made for it, its bytes arriving whenever they do.
  method SendHuffman(f: Frame, d: Dims, scans: seq<ScanInfo>, gs: seq<ScanGeom>, intervals: seq<nat>, img: seq<Plane>,
                     tbls: seq<JHuffTbl>, tails: seq<seq<Byte>>, arrivals: seq<seq<nat>>)
    returns (ok: bool, area: array<int>)
    requires GoodDims(d) && GoodGeoms(d, scans, gs) && |intervals| == |scans| == |tails| == |arrivals| && IsPicture(d, img) && PictureWithin(img, 0x8000)
    requires f.lay == LayoutOf(d) && f.n == |d.comps| && HuffFrame(f, 64 * Base(d, |d.comps|)) && LegalScript(f.n, scans)
    requires forall i :: 0 <= i < |tails| ==> Image.Ended(tails[i], [])
    requires |tbls| == 2 * NUM_HUFF_TBLS && forall u :: 0 <= u < |tbls| ==> tbls[u].Shaped()
    requires PlansFit(f, d, scans, gs, intervals, img, LIMIT + 1)
    ensures fresh(area) && area.Length == 64 * Base(d, |d.comps|)
    ensures PictureWithin(img, 0x400) && PlansFit(f, d, scans, gs, intervals, img, LONG_CODE_TOTAL - 1) ==> ok
    ensures ok ==> Image.Stage(f, scans, |scans|, area[..], CoefsOf(d, img))
    ensures ok && Image.Complete(f.n, PosAfter(f.n, scans, |scans|)) ==> Arrived(d, img, area[..])
  {
    PlansGood(f, d, scans, gs, intervals);
    CoefsAreImage(d, img, 0x8000);
    LayoutFits(d, |d.comps|);
    ghost var small := PictureWithin(img, 0x400);
    if small { CoefsWithin(d, img, 0x400); }
    assert small ==> TenBits(CoefsOf(d, img));
    assert forall bound :: PlansFit(f, d, scans, gs, intervals, img, bound) <==> Bounded(f, scans, PlansOf(d, scans, gs, intervals), CoefsOf(d, img), bound);
    hide *;
    var plans := PlansOf(d, scans, gs, intervals);
    ok, area := HuffTransmission.Transmit(f, scans, plans, CoefsOf(d, img), tbls, tails, arrivals);
    if ok && Image.Complete(f.n, PosAfter(f.n, scans, |scans|)) { SameRealArrived(f, d, img, area[..]); }
  }
}
