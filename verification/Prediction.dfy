// What DC coefficients are coded against: the block before of the same component, if the segment has one (sections F.1.1.5.1 and
// F.1.4.4.1 of ITU-T T.81).
module Prediction {
  import opened Numbers
  import opened ArithInterval
  import opened ArithModel
  import opened Scans
  import opened ArithBlock
  import opened ArithScan
  import opened ArithMeaning
  import opened Telescope
  import opened HuffEobRun
  import opened HuffTokens
  import opened HuffBlock

  // The DC value of the i-th block of a segment.
  function Dc(sc: Scan, coefs: seq<int>, visits: seq<Visit>, i: nat): int
    requires GoodVisits(sc, visits, |coefs|) && i < |visits|
  {
    Shift(Block(coefs, visits[i].blk)[0], sc.al)
  }

  // That of the last block of component ci before the i-th, zero if there is none.
  function Predictor(sc: Scan, coefs: seq<int>, visits: seq<Visit>, i: nat, ci: nat): int
    requires GoodVisits(sc, visits, |coefs|) && i <= |visits|
  {
    if i == 0 then 0 else if visits[i - 1].ci == ci then Dc(sc, coefs, visits, i - 1) else Predictor(sc, coefs, visits, i - 1, ci)
  }

  function Predictors(sc: Scan, coefs: seq<int>, visits: seq<Visit>, i: nat): (r: seq<int>)
    requires GoodVisits(sc, visits, |coefs|) && i <= |visits|
    ensures |r| == |sc.comps|
  {
    seq(|sc.comps|, ci requires 0 <= ci < |sc.comps| => Predictor(sc, coefs, visits, i, ci))
  }

  lemma PredictorsStep(sc: Scan, coefs: seq<int>, visits: seq<Visit>, i: nat)
    requires GoodVisits(sc, visits, |coefs|) && i < |visits|
    ensures Predictors(sc, coefs, visits, i)[visits[i].ci := Dc(sc, coefs, visits, i)] == Predictors(sc, coefs, visits, i + 1)
  {
    hide Dc;
  }

  // ----- Huffman coding -----

  ghost predicate BlockOk(t: Tables, sc: Scan, coefs: seq<int>, visits: seq<Visit>, i: nat)
    requires GoodHuff(t, sc) && GoodVisits(sc, visits, |coefs|) && i < |visits|
  {
    BlockFits(t, sc, Predictors(sc, coefs, visits, i), visits[i].ci, Block(coefs, visits[i].blk))
  }

  ghost function TokensAt(t: Tables, sc: Scan, coefs: seq<int>, visits: seq<Visit>, i: nat): seq<Token>
    requires GoodHuff(t, sc) && !CodesAc(sc.mode) && GoodVisits(sc, visits, |coefs|) && i < |visits| && BlockOk(t, sc, coefs, visits, i)
  {
    DcBlock(t, sc, Predictors(sc, coefs, visits, i), visits[i].ci, Block(coefs, visits[i].blk))
  }

  ghost function TokensOf(t: Tables, sc: Scan, coefs: seq<int>, visits: seq<Visit>, n: nat): seq<Token>
    requires GoodHuff(t, sc) && !CodesAc(sc.mode) && GoodVisits(sc, visits, |coefs|) && n <= |visits|
    requires forall i :: 0 <= i < n ==> BlockOk(t, sc, coefs, visits, i)
  {
    if n == 0 then [] else TokensOf(t, sc, coefs, visits, n - 1) + TokensAt(t, sc, coefs, visits, n - 1)
  }

  // A segment can be coded just if every block can after those before it, and is then what they come to.
  lemma HuffSegment(t: Tables, sc: Scan, coefs: seq<int>, visits: seq<Visit>)
    requires GoodHuff(t, sc) && CodesDc(sc.mode) && GoodVisits(sc, visits, |coefs|)
    ensures SegmentFits(t, sc, coefs, visits) <==> forall i :: 0 <= i < |visits| ==> BlockOk(t, sc, coefs, visits, i)
    ensures SegmentFits(t, sc, coefs, visits) ==> SegmentTokens(t, sc, coefs, visits) == TokensOf(t, sc, coefs, visits, |visits|)
  {
    hide GoodHuff, BlockFits, DcBlock;
    assert visits[0..] == visits && FreshLast(sc) == Predictors(sc, coefs, visits, 0);
    HuffFrom(t, sc, coefs, visits, 0);
  }

  lemma {:induction false} HuffFrom(t: Tables, sc: Scan, coefs: seq<int>, visits: seq<Visit>, k: nat)
    requires GoodHuff(t, sc) && CodesDc(sc.mode) && GoodVisits(sc, visits, |coefs|) && k <= |visits|
    requires forall i :: 0 <= i < k ==> BlockOk(t, sc, coefs, visits, i)
    ensures GoodVisits(sc, visits[k..], |coefs|)
    ensures AllFits(t, sc, Predictors(sc, coefs, visits, k), coefs, visits[k..])
      <==> forall i :: 0 <= i < |visits| ==> BlockOk(t, sc, coefs, visits, i)
    ensures AllFits(t, sc, Predictors(sc, coefs, visits, k), coefs, visits[k..]) ==>
      TokensOf(t, sc, coefs, visits, k) + DcBlocks(t, sc, Predictors(sc, coefs, visits, k), coefs, visits[k..])
        == TokensOf(t, sc, coefs, visits, |visits|)
    decreases |visits| - k
  {
    hide GoodHuff, BlockFits, DcBlock, Predictors, Shift;
    if k < |visits| {
      assert visits[k..][0] == visits[k] && visits[k..][1..] == visits[k + 1..];
      PredictorsStep(sc, coefs, visits, k);
      if BlockOk(t, sc, coefs, visits, k) { HuffFrom(t, sc, coefs, visits, k + 1); }
    }
  }

  // ----- arithmetic coding -----

  // The context of component ci: what its last difference has left behind.
  function Context(t: Tables, sc: Scan, coefs: seq<int>, visits: seq<Visit>, i: nat, ci: nat): (c: nat)
    requires GoodScan(t, sc) && GoodVisits(sc, visits, |coefs|) && i <= |visits| && ci < |sc.comps|
    ensures c <= 16
  {
    if i == 0 then 0
    else if visits[i - 1].ci == ci then
      var tbl, diff := sc.comps[ci].dcTbl, Dc(sc, coefs, visits, i - 1) - Predictor(sc, coefs, visits, i - 1, ci);
      NextContextRange(diff, t.dcL[tbl], t.dcU[tbl]);
      NextContext(diff, t.dcL[tbl], t.dcU[tbl])
    else Context(t, sc, coefs, visits, i - 1, ci)
  }

  ghost function StateAt(t: Tables, sc: Scan, coefs: seq<int>, visits: seq<Visit>, i: nat): (s: DcState)
    requires GoodScan(t, sc) && GoodVisits(sc, visits, |coefs|) && i <= |visits|
    ensures s.Ok(|sc.comps|)
  {
    DcState(Predictors(sc, coefs, visits, i),
            seq(|sc.comps|, ci requires 0 <= ci < |sc.comps| => Context(t, sc, coefs, visits, i, ci)))
  }

  ghost function DecisionsOf(t: Tables, sc: Scan, coefs: seq<int>, visits: seq<Visit>, n: nat): seq<Decision>
    requires GoodScan(t, sc) && GoodVisits(sc, visits, |coefs|) && n <= |visits|
  {
    if n == 0 then []
    else
      var i := n - 1;
      DecisionsOf(t, sc, coefs, visits, i) + BlockDecisions(t, sc, StateAt(t, sc, coefs, visits, i), visits[i].ci, Block(coefs, visits[i].blk))
  }

  // The decisions of a segment are those of its blocks, each after those before it.
  lemma ArithSegment(t: Tables, sc: Scan, coefs: seq<int>, visits: seq<Visit>)
    requires GoodScan(t, sc) && CodesDc(sc.mode) && GoodVisits(sc, visits, |coefs|)
    ensures SegmentDecisions(t, sc, coefs, visits) == DecisionsOf(t, sc, coefs, visits, |visits|)
  {
    hide GoodScan, BlockDecisions;
    assert visits[0..] == visits;
    assert FreshDc(|sc.comps|) == StateAt(t, sc, coefs, visits, 0);
    ArithFrom(t, sc, coefs, visits, 0);
  }

  lemma {:induction false} ArithFrom(t: Tables, sc: Scan, coefs: seq<int>, visits: seq<Visit>, k: nat)
    requires GoodScan(t, sc) && CodesDc(sc.mode) && GoodVisits(sc, visits, |coefs|) && k <= |visits|
    ensures GoodVisits(sc, visits[k..], |coefs|)
    ensures DecisionsOf(t, sc, coefs, visits, k) + VisitsDecisions(t, sc, StateAt(t, sc, coefs, visits, k), coefs, visits[k..])
      == DecisionsOf(t, sc, coefs, visits, |visits|)
    decreases |visits| - k
  {
    hide GoodScan, BlockDecisions, StateAt, Shift, NextDc;
    if k < |visits| {
      assert visits[k..][0] == visits[k] && visits[k..][1..] == visits[k + 1..];
      StateStep(t, sc, coefs, visits, k);
      ArithFrom(t, sc, coefs, visits, k + 1);
    }
  }

  lemma StateStep(t: Tables, sc: Scan, coefs: seq<int>, visits: seq<Visit>, i: nat)
    requires GoodScan(t, sc) && CodesDc(sc.mode) && GoodVisits(sc, visits, |coefs|) && i < |visits|
    ensures NextDc(t, sc, StateAt(t, sc, coefs, visits, i), visits[i].ci, Block(coefs, visits[i].blk)) == StateAt(t, sc, coefs, visits, i + 1)
  {
    hide NextContext, Shift;
    PredictorsStep(sc, coefs, visits, i);
  }

  // ----- one block -----

  // A DC refinement sends the next lower bit, of negative values as of positive ones.
  lemma NextBit(c: int, al: nat)
    ensures Shift(c, al) == 2 * Shift(c, al + 1) + Shift(c, al) % 2
  {
    assert Pow2(al + 1) == 2 * Pow2(al);
    DcHalves(c, Pow2(al));
  }

  // A symbol for the size of the difference comes first; a refinement is the next lower bit.
  ghost predicate Shows(ds: seq<Token>, sc: Scan, ci: nat, c: int, before: int) {
    && ds != [] && ci < |sc.comps|
    && (CodesDc(sc.mode) ==> ds[0].Sym? && ds[0].tbl == DcTable(sc.comps[ci].dcTbl) && ds[0].s == NumBits(Abs(Shift(c, sc.al) - before)))
    && (sc.mode == DcRefine ==> exists b: Bit :: ds == [Raw(b, 1)] && Shift(c, sc.al) == 2 * Shift(c, sc.al + 1) + b)
  }

  lemma HuffBlockSays(t: Tables, sc: Scan, last: seq<int>, ci: nat, block: seq<int>)
    requires GoodHuff(t, sc) && |last| == |sc.comps| && ci < |last| && |block| == 64
    requires BlockFits(t, sc, last, ci, block) && !CodesAc(sc.mode)
    ensures Shows(DcBlock(t, sc, last, ci, block), sc, ci, block[0], last[ci])
  {
    hide GoodHuff, Shift, NumBits;
    NextBit(block[0], sc.al);
    if sc.mode == DcRefine {
      var b: Bit := Shift(block[0], sc.al) % 2;
      assert DcBlock(t, sc, last, ci, block) == [Raw(b, 1)];
    }
  }

  // The first decision is about the difference, in the bin of its context; that of a sequential block about the end of the block next.
  lemma ArithBlockSays(t: Tables, sc: Scan, s: DcState, ci: nat, block: seq<int>)
    requires GoodScan(t, sc) && ci < |sc.comps| && s.Ok(|sc.comps|) && |block| == 64
    ensures CodesDc(sc.mode) ==>
      var c, ds := sc.comps[ci], BlockDecisions(t, sc, s, ci, block); var dc := DcPart(t, sc, s, ci, block);
      && |ds| >= |dc| >= 1 && ds[0] == D(DcStats(c.dcTbl) + s.context[ci], if Shift(block[0], sc.al) == s.last[ci] then 0 else 1)
      && (sc.mode == Sequential && sc.se >= 1 ==>
            |ds| > |dc| && ds[|dc|] == D(AcStats(c.acTbl), if forall i :: 1 <= i <= sc.se ==> Zigzag(block, t.order, 0)[i] == 0 then 1 else 0))
    ensures sc.mode == DcRefine ==>
      exists b: Bit :: BlockDecisions(t, sc, s, ci, block) == [D(FIXED_BIN, b)] && Shift(block[0], sc.al) == 2 * Shift(block[0], sc.al + 1) + b
  {
    hide Shift, Zigzag, AcDecisions, EobIndex, GoodScan, DcMagnitude;
    ScanShape(t, sc);
    NextBit(block[0], sc.al);
    if sc.mode == DcRefine {
      var b: Bit := Shift(block[0], sc.al) % 2;
      assert BlockDecisions(t, sc, s, ci, block) == [D(FIXED_BIN, b)];
    } else if sc.mode == Sequential && sc.se >= 1 {
      var tbl := sc.comps[ci].acTbl;
      EndSays(AcStats(tbl), Zigzag(block, t.order, 0), t.acK[tbl], 1, sc.se);
    }
  }

  lemma ScanShape(t: Tables, sc: Scan)
    requires GoodScan(t, sc)
    ensures IsOrder(t.order) && |t.acK| == NUM_ARITH_TBLS && sc.se < 64 && (sc.mode == Sequential ==> sc.al == 0)
    ensures forall i :: 0 <= i < |sc.comps| ==> sc.comps[i].acTbl < NUM_ARITH_TBLS
  {
  }
}
