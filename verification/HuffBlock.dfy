// One block of a Huffman-coded scan: the sequential routine and the four progressive ones, and what a run of blocks comes to.
module HuffBlock {
  import opened Numbers
  import opened ArithModel
  import opened Scans
  import opened HuffTokens
  import opened HuffWriter
  import opened HuffEobRun
  import opened HuffValues
  import opened HuffAcFirst
  import opened HuffAcRefine
  import opened HuffDc

  predicate CodesAc(mode: Mode) { mode == AcFirst || mode == AcRefine }

  // A scan that codes no AC coefficient sets up no AC table.
  predicate NeedsAc(sc: Scan) { CodesAc(sc.mode) || (sc.mode == Sequential && sc.se > 0) }

  // The scan is one that the Huffman coder's start_pass takes; AC scans have one component.
  ghost function GoodHuff(t: Tables, sc: Scan): (yes: bool)
    ensures yes ==> GoodScan(t, sc)
  {
    && GoodScan(t, sc) && sc.al <= 13
    && (forall i :: 0 <= i < |sc.comps| ==> sc.comps[i].dcTbl < NUM_HUFF_TBLS && sc.comps[i].acTbl < NUM_HUFF_TBLS)
    && (CodesAc(sc.mode) ==> |sc.comps| == 1)
    && (CodesDc(sc.mode) <==> sc.ss == 0 && sc.ah == 0) && (NeedsAc(sc) <==> sc.se > 0)
  }

  // ----- what the blocks of a segment come to -----

  function Diff(sc: Scan, last: seq<int>, ci: nat, block: seq<int>): int
    requires ci < |last| && |block| == 64
  {
    Shift(block[0], sc.al) - last[ci]
  }

  // No coefficient of the block is out of range.
  ghost predicate BlockFits(t: Tables, sc: Scan, last: seq<int>, ci: nat, block: seq<int>)
    requires GoodHuff(t, sc) && ci < |last| && |block| == 64
  {
    match sc.mode
    case Sequential => DiffInRange(Diff(sc, last, ci, block)) && InRange(Zigzag(block, t.order, 0), 1, sc.se)
    case DcFirst => DiffInRange(Diff(sc, last, ci, block))
    case AcFirst => InRange(Zigzag(block, t.order, sc.al), sc.ss, sc.se)
    case _ => true
  }

  function NextLast(sc: Scan, last: seq<int>, ci: nat, block: seq<int>): (r: seq<int>)
    requires ci < |last| && |block| == 64
    ensures |r| == |last|
  {
    if CodesDc(sc.mode) then last[ci := Shift(block[0], sc.al)] else last
  }

  // A block of a sequential or a DC scan.
  ghost function DcBlock(t: Tables, sc: Scan, last: seq<int>, ci: nat, block: seq<int>): seq<Token>
    requires GoodHuff(t, sc) && |last| == |sc.comps| && ci < |last| && |block| == 64
    requires BlockFits(t, sc, last, ci, block) && !CodesAc(sc.mode)
  {
    var tbl := sc.comps[ci];
    match sc.mode
    case Sequential => DcTokens(DcTable(tbl.dcTbl), Diff(sc, last, ci, block)) + AcTokens(AcTable(tbl.acTbl), Zigzag(block, t.order, 0), sc.se)
    case DcFirst => DcTokens(DcTable(tbl.dcTbl), Diff(sc, last, ci, block))
    case DcRefine => [Raw(Shift(block[0], sc.al) % 2, 1)]
  }

  function TheTable(sc: Scan): (t: nat)
    requires |sc.comps| == 1
    ensures t == AcTable(sc.comps[0].acTbl)
  {
    AcTable(sc.comps[0].acTbl)
  }

  // A block of an AC scan.
  ghost function BandOf(t: Tables, sc: Scan, block: seq<int>): AcBlock
    requires GoodHuff(t, sc) && |block| == 64 && CodesAc(sc.mode)
    requires sc.mode == AcFirst ==> InRange(Zigzag(block, t.order, sc.al), sc.ss, sc.se)
  {
    if sc.mode == AcFirst then FirstBlock(TheTable(sc), Zigzag(block, t.order, sc.al), sc.ss, sc.se)
    else RefineBlock(TheTable(sc), Zigzag(block, t.order, sc.al), sc.ss, sc.se)
  }

  ghost predicate AllFits(t: Tables, sc: Scan, last: seq<int>, coefs: seq<int>, visits: seq<Visit>)
    requires GoodHuff(t, sc) && |last| == |sc.comps| && GoodVisits(sc, visits, |coefs|)
    decreases |visits|
  {
    visits == [] ||
    var v, b := visits[0], Block(coefs, visits[0].blk);
    BlockFits(t, sc, last, v.ci, b) && AllFits(t, sc, NextLast(sc, last, v.ci, b), coefs, visits[1..])
  }

  ghost function DcBlocks(t: Tables, sc: Scan, last: seq<int>, coefs: seq<int>, visits: seq<Visit>): seq<Token>
    requires GoodHuff(t, sc) && |last| == |sc.comps| && GoodVisits(sc, visits, |coefs|) && !CodesAc(sc.mode)
    requires AllFits(t, sc, last, coefs, visits)
    decreases |visits|
  {
    if visits == [] then []
    else
      var v, b := visits[0], Block(coefs, visits[0].blk);
      DcBlock(t, sc, last, v.ci, b) + DcBlocks(t, sc, NextLast(sc, last, v.ci, b), coefs, visits[1..])
  }

  ghost function Bands(t: Tables, sc: Scan, last: seq<int>, coefs: seq<int>, visits: seq<Visit>): (r: seq<AcBlock>)
    requires GoodHuff(t, sc) && |last| == |sc.comps| && GoodVisits(sc, visits, |coefs|) && CodesAc(sc.mode)
    requires AllFits(t, sc, last, coefs, visits)
    ensures |r| == |visits|
    decreases |visits|
  {
    if visits == [] then []
    else [BandOf(t, sc, Block(coefs, visits[0].blk))] + Bands(t, sc, last, coefs, visits[1..])
  }

  // What is still to be emitted for a segment, with a run saved up.
  ghost function ToCome(t: Tables, sc: Scan, last: seq<int>, e: nat, bits: seq<Bit>, coefs: seq<int>, visits: seq<Visit>): seq<Token>
    requires GoodHuff(t, sc) && |last| == |sc.comps| && GoodVisits(sc, visits, |coefs|) && e <= MAX_EOBRUN
    requires AllFits(t, sc, last, coefs, visits)
  {
    if CodesAc(sc.mode) then Owed(TheTable(sc), e, bits, Bands(t, sc, last, coefs, visits))
    else DcBlocks(t, sc, last, coefs, visits)
  }

  // Predictors at the start of a segment.
  function FreshLast(sc: Scan): (last: seq<int>)
    ensures |last| == |sc.comps| && forall i :: 0 <= i < |last| ==> last[i] == 0
  {
    seq(|sc.comps|, _ => 0)
  }

  ghost predicate SegmentFits(t: Tables, sc: Scan, coefs: seq<int>, visits: seq<Visit>)
    requires GoodHuff(t, sc) && GoodVisits(sc, visits, |coefs|)
  {
    AllFits(t, sc, FreshLast(sc), coefs, visits)
  }

  // The tokens of one segment.
  ghost function SegmentTokens(t: Tables, sc: Scan, coefs: seq<int>, visits: seq<Visit>): seq<Token>
    requires GoodHuff(t, sc) && GoodVisits(sc, visits, |coefs|)
    requires SegmentFits(t, sc, coefs, visits)
  {
    ToCome(t, sc, FreshLast(sc), 0, [], coefs, visits)
  }

  // ----- the coder -----

  // Between blocks: what is saved up.
  ghost predicate AtRest(w: Writer, sc: Scan, bits: seq<Bit>)
    reads w, w.bitBuffer
  {
    && Saved(w, bits) && w.eobrun < MAX_EOBRUN && !Full(w.eobrun, |bits|) && |w.lastDcVal| == |sc.comps|
    && (sc.mode != AcRefine ==> bits == []) && (!CodesAc(sc.mode) ==> w.eobrun == 0)
  }

  // What one block adds, and what is then saved up.
  ghost function StepTokens(t: Tables, sc: Scan, last: seq<int>, e: nat, bits: seq<Bit>, ci: nat, block: seq<int>): seq<Token>
    requires GoodHuff(t, sc) && |last| == |sc.comps| && ci < |last| && |block| == 64 && e < MAX_EOBRUN
    requires BlockFits(t, sc, last, ci, block)
  {
    if CodesAc(sc.mode) then BlockTokens(TheTable(sc), e, bits, BandOf(t, sc, block)) else DcBlock(t, sc, last, ci, block)
  }

  ghost function StepRun(t: Tables, sc: Scan, last: seq<int>, e: nat, bits: seq<Bit>, ci: nat, block: seq<int>): (r: (nat, seq<Bit>))
    requires GoodHuff(t, sc) && |last| == |sc.comps| && ci < |last| && |block| == 64 && e < MAX_EOBRUN
    requires BlockFits(t, sc, last, ci, block)
    ensures CodesAc(sc.mode) ==> r.0 < MAX_EOBRUN && !Full(r.0, |r.1|)
  {
    if CodesAc(sc.mode) then NextRun(TheTable(sc), e, bits, BandOf(t, sc, block)) else (e, bits)
  }

  lemma BandOk(t: Tables, sc: Scan, block: seq<int>)
    requires GoodHuff(t, sc) && |block| == 64 && CodesAc(sc.mode)
    requires sc.mode == AcFirst ==> InRange(Zigzag(block, t.order, sc.al), sc.ss, sc.se)
    ensures BandOf(t, sc, block).Ok() && (sc.mode == AcFirst ==> BandOf(t, sc, block).tail == [])
  {
    if sc.mode == AcFirst {
      FirstBlockOk(TheTable(sc), Zigzag(block, t.order, sc.al), sc.ss, sc.se);
    } else {
      RefineBlockOk(TheTable(sc), Zigzag(block, t.order, sc.al), sc.ss, sc.se);
    }
  }

  // A block's tokens are the next of those to come.
  lemma StepAhead(t: Tables, sc: Scan, last: seq<int>, e: nat, bits: seq<Bit>, coefs: seq<int>, visits: seq<Visit>)
    requires GoodHuff(t, sc) && |last| == |sc.comps| && GoodVisits(sc, visits, |coefs|) && visits != []
    requires AllFits(t, sc, last, coefs, visits) && e < MAX_EOBRUN && !Full(e, |bits|) && (e == 0 ==> bits == [])
    ensures var v, b := visits[0], Block(coefs, visits[0].blk);
      && BlockFits(t, sc, last, v.ci, b) && AllFits(t, sc, NextLast(sc, last, v.ci, b), coefs, visits[1..])
      && StepRun(t, sc, last, e, bits, v.ci, b).0 <= MAX_EOBRUN
      && ToCome(t, sc, last, e, bits, coefs, visits) == StepTokens(t, sc, last, e, bits, v.ci, b)
           + ToCome(t, sc, NextLast(sc, last, v.ci, b), StepRun(t, sc, last, e, bits, v.ci, b).0,
                    StepRun(t, sc, last, e, bits, v.ci, b).1, coefs, visits[1..])
  {
    hide Zigzag, InRange, DiffInRange, FirstBlock, RefineBlock, Owed, BlockTokens, NextRun, GoodScan;
    if CodesAc(sc.mode) {
      var b := BandOf(t, sc, Block(coefs, visits[0].blk));
      BandOk(t, sc, Block(coefs, visits[0].blk));
      OwedStep(TheTable(sc), e, bits, b, Bands(t, sc, last, coefs, visits[1..]));
    }
  }

  lemma ShiftNone(c: int)
    ensures Shift(c, 0) == c
  {
    assert Pow2(0) == 1;
  }

  // encode_one_block, or htest_one_block in a statistics pass
  method EncodeSequential(w: Writer, t: Tables, sc: Scan, ci: nat, block: seq<int>) returns (ok: bool)
    requires w.Valid() && GoodHuff(t, sc) && |w.lastDcVal| == |sc.comps| && ci < |sc.comps| && |block| == 64 && sc.mode == Sequential
    modifies w`putBuffer, w`putBits, w`out, w`code, w`pending, w`log, w`counts, w`lastDcVal
    ensures GoodEnv(w.env)
    ensures BlockFits(t, sc, old(w.lastDcVal), ci, block) ==>
      (ok <==> w.gather || Codable(w.env, DcBlock(t, sc, old(w.lastDcVal), ci, block)))
    ensures ok ==>
      && BlockFits(t, sc, old(w.lastDcVal), ci, block) && w.Valid()
      && w.log == old(w.log) + DcBlock(t, sc, old(w.lastDcVal), ci, block) && w.lastDcVal == NextLast(sc, old(w.lastDcVal), ci, block)
  {
    hide Writer.Valid, Codable, GoodEnv, InRange, DiffInRange, Zigzag, DcTokens, AcTokens, Shift, IsOrder;
    EnvOf(w);
    ShiftNone(block[0]);
    var tbl := sc.comps[ci];
    ghost var last0, log0 := w.lastDcVal, w.log;
    ghost var dc := if DiffInRange(Diff(sc, last0, ci, block)) then DcTokens(DcTable(tbl.dcTbl), Diff(sc, last0, ci, block)) else [];
    ghost var ac := if InRange(Zigzag(block, t.order, 0), 1, sc.se) then AcTokens(AcTable(tbl.acTbl), Zigzag(block, t.order, 0), sc.se) else [];
    CodableConcat(w.env, dc, ac);
    Ungrouped(log0, dc, ac);
    if w.gather {
      ok := CountDc(w, DcTable(tbl.dcTbl), ci, block[0]);
    } else {
      ok := EncodeDc(w, DcTable(tbl.dcTbl), ci, block[0]);
    }
    if !ok {
      return;
    }
    if w.gather {
      ok := CountAcPart(w, AcTable(tbl.acTbl), block, t.order, sc.se);
    } else {
      ok := EncodeAcPart(w, AcTable(tbl.acTbl), block, t.order, sc.se);
    }
  }

  // One block, by the routine of the scan.
  method EncodeBlock(w: Writer, t: Tables, sc: Scan, ci: nat, block: seq<int>, ghost bits: seq<Bit>) returns (ok: bool)
    requires w.Valid() && GoodHuff(t, sc) && AtRest(w, sc, bits) && ci < |sc.comps| && |block| == 64
    modifies w`putBuffer, w`putBits, w`out, w`code, w`pending, w`log, w`counts, w`lastDcVal, w`eobrun, w`be, w.bitBuffer
    ensures GoodEnv(w.env)
    ensures BlockFits(t, sc, old(w.lastDcVal), ci, block) ==>
      (ok <==> w.gather || Codable(w.env, StepTokens(t, sc, old(w.lastDcVal), old(w.eobrun), bits, ci, block)))
    ensures ok ==>
      && BlockFits(t, sc, old(w.lastDcVal), ci, block) && w.Valid()
      && w.log == old(w.log) + StepTokens(t, sc, old(w.lastDcVal), old(w.eobrun), bits, ci, block)
      && w.lastDcVal == NextLast(sc, old(w.lastDcVal), ci, block)
      && w.eobrun == StepRun(t, sc, old(w.lastDcVal), old(w.eobrun), bits, ci, block).0
      && AtRest(w, sc, StepRun(t, sc, old(w.lastDcVal), old(w.eobrun), bits, ci, block).1)
  {
    hide Writer.Valid, Codable, GoodEnv, InRange, DiffInRange, Zigzag, DcTokens, AcTokens;
    hide Shift, IsOrder, BlockTokens, NextRun, FirstBlock, RefineBlock;
    EnvOf(w);
    match sc.mode {
      case Sequential =>
        ok := EncodeSequential(w, t, sc, ci, block);
      case DcFirst =>
        ok := EncodeDc(w, DcTable(sc.comps[ci].dcTbl), ci, Shift(block[0], sc.al));
      case AcFirst =>
        ok := EncodeAcFirst(w, TheTable(sc), block, t.order, sc.ss, sc.se, sc.al);
      case DcRefine =>
        ok := EncodeBit(w, Shift(block[0], sc.al));
      case AcRefine =>
        ok := EncodeAcRefine(w, TheTable(sc), block, t.order, sc.ss, sc.se, sc.al, bits);
    }
  }

  // DC refinement: the bit of the value at position Al, as it is.
  method EncodeBit(w: Writer, v: int) returns (ok: bool)
    requires w.Valid()
    modifies w`putBuffer, w`putBits, w`out, w`code, w`pending, w`log
    ensures GoodEnv(w.env) && ok && Codable(w.env, [Raw(v % 2, 1)])
    ensures w.Valid() && w.log == old(w.log) + [Raw(v % 2, 1)]
  {
    assert Pow2(1) == 2;
    hide Writer.Valid, Pow2, GoodEnv;
    EnvOf(w);
    ok := w.EmitRaw(v, 1);
  }
}
