// Decoding one MCU of a Huffman-coded scan, and starting it over when the data source makes the decoder wait.
module HuffMcu {
  import opened Numbers
  import opened ArithModel
  import opened Scans
  import opened HuffTable
  import opened HuffTokens
  import opened HuffLookup
  import opened HuffCursor
  import opened HuffWrites
  import opened HuffReader
  import opened HuffEobRun
  import opened HuffAcFirst
  import opened HuffAcRefine
  import opened HuffAcRefinePass
  import opened HuffAcRefineDecode
  import opened HuffDc
  import opened HuffBlock

  // The decoder's Huffman tables and what it has derived from them, DC then AC.
  datatype Decoding = Decoding(tbls: seq<JHuffTbl>, derived: seq<DDerived>)

  // The decoder has accepted the tables the scan needs.
  ghost predicate SetUp(sc: Scan, dec: Decoding) {
    && |dec.tbls| == |dec.derived| == 2 * NUM_HUFF_TBLS
    && forall i :: 0 <= i < |sc.comps| ==> SetUpFor(sc, dec, sc.comps[i])
  }

  ghost predicate SetUpFor(sc: Scan, dec: Decoding, comp: Comp)
    requires |dec.tbls| == |dec.derived|
  {
    && AcTable(comp.acTbl) < |dec.tbls| && DcTable(comp.dcTbl) < |dec.tbls|
    && (CodesDc(sc.mode) ==> AcceptedDc(dec.tbls[DcTable(comp.dcTbl)], dec.derived[DcTable(comp.dcTbl)]))
    && (NeedsAc(sc) ==> Accepted(dec.tbls[AcTable(comp.acTbl)], dec.derived[AcTable(comp.acTbl)]))
  }

  // And they are the coder's.
  ghost function HasTables(sc: Scan, env: Env, dec: Decoding): (yes: bool)
    ensures yes ==> SetUp(sc, dec)
  {
    SetUp(sc, dec) && |env| == 2 * NUM_HUFF_TBLS && forall i :: 0 <= i < |sc.comps| ==> TablesFor(sc, env, dec, sc.comps[i])
  }

  ghost predicate TablesFor(sc: Scan, env: Env, dec: Decoding, comp: Comp)
    requires |env| == |dec.tbls| == |dec.derived| && SetUpFor(sc, dec, comp)
  {
    && (CodesDc(sc.mode) ==> Shared(env[DcTable(comp.dcTbl)], dec.tbls[DcTable(comp.dcTbl)], dec.derived[DcTable(comp.dcTbl)]))
    && (NeedsAc(sc) ==> Shared(env[AcTable(comp.acTbl)], dec.tbls[AcTable(comp.acTbl)], dec.derived[AcTable(comp.acTbl)]))
  }

  // The decoder is at the first of the blocks that the segment still has.
  ghost function AtVisits(d: Reader, env: Env, t: Tables, sc: Scan, coefs: seq<int>, visits: seq<Visit>): (yes: bool)
    requires GoodEnv(env) && d.Valid() && GoodHuff(t, sc) && GoodVisits(sc, visits, |coefs|)
    ensures yes ==> |d.lastDcVal| == |sc.comps|
    reads d`pos, d`avail, d`unreadMarker, d`bitsLeft, d`getBuffer, d`held, d`pad, d`landing, d`insufficientData, d`eobrun, d`lastDcVal
  {
    && |d.lastDcVal| == |sc.comps| && AllFits(t, sc, d.lastDcVal, coefs, visits)
    && if CodesAc(sc.mode) then AtBlocks(d, env, TheTable(sc), Bands(t, sc, d.lastDcVal, coefs, visits))
       else d.InSync(env, DcBlocks(t, sc, d.lastDcVal, coefs, visits))
  }

  // A refinement scan still finds the block as the earlier scans left it, up to corrections.
  ghost predicate Retriable(t: Tables, sc: Scan, area: seq<int>, at: nat, block: seq<int>)
    requires GoodHuff(t, sc) && |block| == 64 && at + 64 <= |area|
  {
    sc.mode == AcRefine ==> Refinable(area, at, t.order, Zigzag(block, t.order, sc.al), sc.al, sc.ss, sc.se)
  }

  lemma ReadyIsRetriable(t: Tables, sc: Scan, area: seq<int>, at: nat, block: seq<int>)
    requires GoodHuff(t, sc) && |block| == 64 && at + 64 <= |area| && Ready(t, sc, area, at, block)
    ensures Retriable(t, sc, area, at, block)
  {
  }

  // What one attempt at a block does.
  ghost predicate BlockDone(ok: bool, t: Tables, sc: Scan, area0: seq<int>, area: seq<int>, at: nat, block: seq<int>)
    requires GoodHuff(t, sc) && |block| == 64 && at + 64 <= |area0| == |area|
  {
    if ok then area == BlockEffect(t, sc, area0, at, block)
    else Between(area0, area, BlockEffect(t, sc, area0, at, block)) && Retriable(t, sc, area, at, block)
  }

  lemma EffectOf(t: Tables, sc: Scan, area: seq<int>, at: nat, block: seq<int>)
    requires GoodHuff(t, sc) && |block| == 64 && at + 64 <= |area|
    ensures BlockEffect(t, sc, area, at, block) ==
      match sc.mode
      case Sequential => Placed(area[at := ToShort(block[0])], at, t.order, Zigzag(block, t.order, 0), 0, 1, sc.se + 1)
      case DcFirst => area[at := ToShort(Shift(block[0], sc.al) * Pow2(sc.al))]
      case DcRefine => if Shift(block[0], sc.al) % 2 == 1 then area[at := SetBit(area[at], sc.al)] else area
      case _ => Placed(area, at, t.order, Zigzag(block, t.order, sc.al), sc.al, sc.ss, sc.se + 1)
  {
    if sc.mode == Sequential {
      assert Pow2(0) == 1;
      ShiftNone(block[0]);
    }
  }

  // ----- the decoder as a function of all its bytes -----

  // What the decoder keeps between MCUs.
  datatype Saved = Saved(cur: Cursor, last: seq<int>, eobrun: nat)

  ghost function StateOf(d: Reader): Saved
    reads d`pos, d`unreadMarker, d`getBuffer, d`bitsLeft, d`insufficientData, d`lastDcVal, d`eobrun
  {
    Saved(d.Cur(), d.lastDcVal, d.eobrun)
  }

  function MenderOf(sc: Scan): Mender { if sc.mode == DcRefine then SetsBit(sc.al) else Corrects(sc.al) }

  // What has become of the coefficients, the attempt having been completed or not.
  ghost predicate Worked(ok: bool, sc: Scan, area0: seq<int>, area: seq<int>, ws: seq<Write>) {
    if ok || sc.mode != AcRefine then Wrote(MenderOf(sc), area0, area, ws) else Abandoned(MenderOf(sc), area0, area, ws)
  }

  ghost predicate TablesThere(t: Tables, sc: Scan, dec: Decoding, ci: nat, s: Saved) {
    GoodHuff(t, sc) && |dec.tbls| == |dec.derived| == 2 * NUM_HUFF_TBLS && ci < |sc.comps| == |s.last|
  }

  // The new predictor.
  ghost function PredictorFrom(input: seq<Byte>, dec: Decoding, t: Tables, sc: Scan, ci: nat, s: Saved): (f: Maybe<Saved>)
    requires TablesThere(t, sc, dec, ci, s)
    ensures f.Just? ==> |f.value.last| == |s.last|
  {
    var td := DcTable(sc.comps[ci].dcTbl);
    match DiffFrom(input, dec.tbls[td], dec.derived[td], s.cur)
    case Nothing => Nothing
    case Just((next, diff)) => Just(s.(cur := next, last := s.last[ci := s.last[ci] + diff]))
  }

  // The AC part moves the reader only.
  function Moved(s: Saved, f: Outcome<Cursor>): (r: Outcome<Saved>)
    ensures r.ws == f.ws && (r.Done? ==> f.Done? && r.value == s.(cur := f.value))
  {
    match f
    case Stuck(ws) => Stuck(ws)
    case Done(next, ws) => Done(s.(cur := next), ws)
  }

  ghost function SequentialFrom(input: seq<Byte>, dec: Decoding, t: Tables, sc: Scan, ci: nat, s: Saved, at: nat): (f: Outcome<Saved>)
    requires TablesThere(t, sc, dec, ci, s)
    ensures f.Done? ==> |f.value.last| == |s.last|
  {
    var ta := AcTable(sc.comps[ci].acTbl);
    var p := PredictorFrom(input, dec, t, sc, ci, s);
    if p.Nothing? then Stuck([])
    else After([Put(at, ToShort(p.value.last[ci]))],
               Moved(p.value, AcPartFrom(input, dec.tbls[ta], dec.derived[ta], p.value.cur, at, t.order, 1, sc.se, [])))
  }

  ghost function DcFirstFrom(input: seq<Byte>, dec: Decoding, t: Tables, sc: Scan, ci: nat, s: Saved, at: nat): (f: Outcome<Saved>)
    requires TablesThere(t, sc, dec, ci, s)
    ensures f.Done? ==> |f.value.last| == |s.last|
  {
    var p := PredictorFrom(input, dec, t, sc, ci, s);
    if p.Nothing? then Stuck([]) else Done(p.value, [Put(at, ToShort(p.value.last[ci] * Pow2(sc.al)))])
  }

  function DcRefineFrom(input: seq<Byte>, s: Saved, at: nat): (f: Outcome<Saved>)
    ensures f.Done? ==> |f.value.last| == |s.last|
  {
    match BitFrom(input, s.cur, at)
    case Nothing => Stuck([])
    case Just((next, ws)) => Done(s.(cur := next), ws)
  }

  function InRunFrom(s: Saved, f: Outcome<(Cursor, nat)>): (r: Outcome<Saved>)
    ensures r.ws == f.ws && (r.Done? ==> r.value.last == s.last)
  {
    match f
    case Stuck(ws) => Stuck(ws)
    case Done((next, run), ws) => Done(s.(cur := next, eobrun := run), ws)
  }

  ghost function AcBlockFrom(input: seq<Byte>, dec: Decoding, t: Tables, sc: Scan, s: Saved, at: nat, area: seq<int>): (f: Outcome<Saved>)
    requires TablesThere(t, sc, dec, 0, s) && at + 64 <= |area|
    ensures f.Done? ==> f.value.last == s.last
  {
    var ta := AcTable(sc.comps[0].acTbl);
    InRunFrom(s, if sc.mode == AcFirst then AcFirstFrom(input, dec.tbls[ta], dec.derived[ta], s.cur, s.eobrun, at, t.order, sc.ss, sc.se, sc.al)
                 else RefineFrom(input, dec.tbls[ta], dec.derived[ta], NonZeros(area, at, t.order), s.cur, s.eobrun, at, t.order,
                                 sc.ss, sc.se, sc.al))
  }

  ghost function BlockFrom(input: seq<Byte>, dec: Decoding, t: Tables, sc: Scan, v: Visit, s: Saved, area: seq<int>): (f: Outcome<Saved>)
    requires TablesThere(t, sc, dec, v.ci, s) && 64 * v.blk + 64 <= |area|
    ensures f.Done? ==> |f.value.last| == |s.last|
  {
    match sc.mode
    case Sequential => SequentialFrom(input, dec, t, sc, v.ci, s, 64 * v.blk)
    case DcFirst => DcFirstFrom(input, dec, t, sc, v.ci, s, 64 * v.blk)
    case DcRefine => DcRefineFrom(input, s, 64 * v.blk)
    case _ => AcBlockFrom(input, dec, t, sc, s, 64 * v.blk, area)
  }

  // Only AC refinement looks at the coefficients, and only at which of them are zero.
  lemma BlockSame(input: seq<Byte>, dec: Decoding, t: Tables, sc: Scan, v: Visit, s: Saved, area: seq<int>, now: seq<int>)
    requires TablesThere(t, sc, dec, v.ci, s) && 64 * v.blk + 64 <= |area| == |now|
    requires sc.mode == AcRefine ==> forall j :: 0 <= j < |area| ==> (area[j] == 0 <==> now[j] == 0)
    ensures BlockFrom(input, dec, t, sc, v, s, now) == BlockFrom(input, dec, t, sc, v, s, area)
  {
    hide SequentialFrom, DcFirstFrom, DcRefineFrom, RefineFrom, AcFirstFrom;
    if sc.mode == AcRefine { assert NonZeros(area, 64 * v.blk, t.order) == NonZeros(now, 64 * v.blk, t.order); }
  }

  lemma TablesHere(t: Tables, sc: Scan, env: Env, dec: Decoding, ci: nat)
    requires GoodHuff(t, sc) && GoodEnv(env) && SetUp(sc, dec) && ci < |sc.comps|
    ensures |env| == |dec.tbls| == |dec.derived| == 2 * NUM_HUFF_TBLS && DcTable(sc.comps[ci].dcTbl) < |env| && AcTable(sc.comps[ci].acTbl) < |env|
    ensures var td, ta := DcTable(sc.comps[ci].dcTbl), AcTable(sc.comps[ci].acTbl);
      && (CodesDc(sc.mode) ==> AcceptedDc(dec.tbls[td], dec.derived[td])) && (NeedsAc(sc) ==> Accepted(dec.tbls[ta], dec.derived[ta]))
      && (HasTables(sc, env, dec) ==>
            && (CodesDc(sc.mode) ==> Shared(env[td], dec.tbls[td], dec.derived[td]))
            && (NeedsAc(sc) ==> Shared(env[ta], dec.tbls[ta], dec.derived[ta])))
  {
    hide AcceptedDc, Accepted, Shared, GoodHuff;
    assert SetUpFor(sc, dec, sc.comps[ci]);
    if HasTables(sc, env, dec) { assert TablesFor(sc, env, dec, sc.comps[ci]); }
  }

  lemma PredictorTold(ok: bool, all: bool, input: seq<Byte>, dec: Decoding, t: Tables, sc: Scan, ci: nat, s: Saved, now: Saved)
    requires TablesThere(t, sc, dec, ci, s) && now.eobrun == s.eobrun && |now.last| == |s.last| && now.last == s.last[ci := now.last[ci]]
    requires var td := DcTable(sc.comps[ci].dcTbl);
      Tells(ok, all, DiffFrom(input, dec.tbls[td], dec.derived[td], s.cur), (now.cur, now.last[ci] - s.last[ci]))
    ensures Tells(ok, all, PredictorFrom(input, dec, t, sc, ci, s), now)
  {
    hide DiffFrom, AcPartFrom;
  }

  lemma SequentialStuck(all: bool, input: seq<Byte>, dec: Decoding, t: Tables, sc: Scan, ci: nat, s: Saved, at: nat, now: Saved)
    requires TablesThere(t, sc, dec, ci, s) && Tells(false, all, PredictorFrom(input, dec, t, sc, ci, s), now)
    ensures Follows(false, all, SequentialFrom(input, dec, t, sc, ci, s, at), now, [])
    ensures Follows(false, all, DcFirstFrom(input, dec, t, sc, ci, s, at), now, [])
  {
    hide AcPartFrom, PredictorFrom;
  }

  lemma SequentialTold(ok: bool, all: bool, input: seq<Byte>, dec: Decoding, t: Tables, sc: Scan, ci: nat, s: Saved, at: nat,
                       mid: Saved, now: Saved, ws: seq<Write>)
    requires TablesThere(t, sc, dec, ci, s) && Tells(true, all, PredictorFrom(input, dec, t, sc, ci, s), mid) && now == mid.(cur := now.cur)
    requires var ta := AcTable(sc.comps[ci].acTbl);
      Follows(ok, all, AcPartFrom(input, dec.tbls[ta], dec.derived[ta], mid.cur, at, t.order, 1, sc.se, []), now.cur, ws)
    ensures ci < |mid.last|
    ensures Follows(ok, all, SequentialFrom(input, dec, t, sc, ci, s, at), now, [Put(at, ToShort(mid.last[ci]))] + ws)
  {
    hide AcPartFrom, PredictorFrom, ToShort;
  }

  lemma DcFirstTold(all: bool, input: seq<Byte>, dec: Decoding, t: Tables, sc: Scan, ci: nat, s: Saved, at: nat, now: Saved)
    requires TablesThere(t, sc, dec, ci, s) && Tells(true, all, PredictorFrom(input, dec, t, sc, ci, s), now)
    ensures ci < |now.last|
    ensures Follows(true, all, DcFirstFrom(input, dec, t, sc, ci, s, at), now, [Put(at, ToShort(now.last[ci] * Pow2(sc.al)))])
  {
    hide PredictorFrom, ToShort, Pow2;
  }

  // ----- the blocks of sequential and DC scans -----

  lemma DcBlockAhead(d: Reader, env: Env, t: Tables, sc: Scan, coefs: seq<int>, visits: seq<Visit>)
    requires GoodEnv(env) && d.Valid() && GoodHuff(t, sc) && GoodVisits(sc, visits, |coefs|) && visits != [] && !CodesAc(sc.mode)
    requires AtVisits(d, env, t, sc, coefs, visits)
    ensures var v, b := visits[0], Block(coefs, visits[0].blk);
      && BlockFits(t, sc, d.lastDcVal, v.ci, b) && AllFits(t, sc, NextLast(sc, d.lastDcVal, v.ci, b), coefs, visits[1..])
      && d.InSync(env, DcBlock(t, sc, d.lastDcVal, v.ci, b) + DcBlocks(t, sc, NextLast(sc, d.lastDcVal, v.ci, b), coefs, visits[1..]))
  {
    hide BlockFits, DcBlock, NextLast, Reader.InSync, GoodHuff;
  }

  // The area with the DC coefficient in place is on the way to the area with the whole block in place.
  lemma DcPlaced(area: seq<int>, now: seq<int>, at: nat, order: seq<nat>, w: seq<int>, dc: int, se: nat)
    requires IsOrder(order) && |w| == 64 && se < 64 && at + 64 <= |area|
    requires var one := area[at := dc]; now == one || Between(one, now, Placed(one, at, order, w, 0, 1, se + 1))
    ensures Between(area, now, Placed(area[at := dc], at, order, w, 0, 1, se + 1))
  {
    var one := area[at := dc];
    PlacedAt(one, at, order, w, 0, 1, se + 1, 0);
    PlacedBetween(one, at, order, w, 0, 1, 1, se + 1);
    PlacedNothing(one, at, order, w, 0, 1, 1);
  }

  // A block of decode_mcu
  method DecodeSequential(d: Reader, dec: Decoding, t: Tables, sc: Scan, ci: nat, area: array<int>, at: nat,
                          ghost env: Env, ghost block: seq<int>, ghost rest: seq<Token>)
    returns (ok: bool, ghost ws: seq<Write>)
    requires d.Valid() && GoodEnv(env) && GoodHuff(t, sc) && SetUp(sc, dec) && sc.mode == Sequential
    requires ci < |sc.comps| == |d.lastDcVal| && at + 64 <= area.Length && |block| == 64
    modifies d`pos, d`unreadMarker, d`getBuffer, d`bitsLeft, d`held, d`insufficientData, d`lastDcVal, area
    ensures d.Unmarked(ok) && |d.lastDcVal| == |sc.comps| && (ok ==> d.Valid())
    ensures Follows(ok, d.avail == |d.input|, SequentialFrom(d.input, dec, t, sc, ci, old(StateOf(d)), at), StateOf(d), ws)
    ensures Worked(ok, sc, old(area[..]), area[..], ws)
    ensures BlockFits(t, sc, old(d.lastDcVal), ci, block) && old(d.InSync(env, DcBlock(t, sc, d.lastDcVal, ci, block) + rest))
            && HasTables(sc, env, dec) ==>
      (d.avail == |d.input| ==> ok) && BlockDone(ok, t, sc, old(area[..]), area[..], at, block)
      && (ok ==> d.InSync(env, rest) && d.lastDcVal == NextLast(sc, old(d.lastDcVal), ci, block))
  {
    hide Reader.Valid, Reader.InSync, GoodEnv, Shared, Accepted, AcceptedDc, SymbolsFit, IsOrder;
    hide DcTokens, AcTokens, DiffInRange, InRange, Zigzag, Shift, ToShort;
    hide Placed, Between, BlockEffect, SetUp, HasTables, PredictorFrom, SequentialFrom, DiffFrom, AcPartFrom, Wrote, Tells, Follows;
    var comp := sc.comps[ci];
    TablesHere(t, sc, env, dec, ci);
    ghost var area0, last := area[..], d.lastDcVal;
    ghost var sync := HasTables(sc, env, dec) && BlockFits(t, sc, last, ci, block) && d.InSync(env, DcBlock(t, sc, last, ci, block) + rest);
    ghost var w := Zigzag(block, t.order, 0);
    ghost var ac := if sync then AcTokens(AcTable(comp.acTbl), w, sc.se) else [];
    if sync {
      EffectOf(t, sc, area0, at, block);
      ShiftNone(block[0]);
      Ungrouped(DcTokens(DcTable(comp.dcTbl), Diff(sc, last, ci, block)), ac, rest);
      AtFirst(area0, BlockEffect(t, sc, area0, at, block));
    }
    ws := [];
    WroteNothing(Corrects(0), area[..]);
    ghost var s := StateOf(d);
    ok := DecodeDc(d, DcTable(comp.dcTbl), dec.tbls[DcTable(comp.dcTbl)], dec.derived[DcTable(comp.dcTbl)], ci,
                   if sync then Diff(sc, last, ci, block) else 0, env, ac + rest);
    PredictorTold(ok, d.avail == |d.input|, d.input, dec, t, sc, ci, s, StateOf(d));
    if !ok {
      SequentialStuck(d.avail == |d.input|, d.input, dec, t, sc, ci, s, at, StateOf(d));
      return;
    }
    ghost var dc := ToShort(d.lastDcVal[ci]);
    WroteOne(Corrects(0), area[..], Put(at, dc));
    area[at] := ToShort(d.lastDcVal[ci]);
    ghost var mid, s1 := area[..], StateOf(d);
    ok, ws := DecodeAcPart(d, AcTable(comp.acTbl), dec.tbls[AcTable(comp.acTbl)], dec.derived[AcTable(comp.acTbl)], area, at, t.order, sc.se,
                       env, w, rest);
    SequentialTold(ok, d.avail == |d.input|, d.input, dec, t, sc, ci, s, at, s1, StateOf(d), ws);
    WroteMore(Corrects(0), old(area[..]), mid, area[..], [Put(at, dc)], ws);
    ws := [Put(at, dc)] + ws;
    if sync && !ok { DcPlaced(area0, area[..], at, t.order, w, ToShort(block[0]), sc.se); }
  }

  lemma AtFirst(area: seq<int>, final: seq<int>)
    requires |area| == |final|
    ensures Between(area, area, final)
  {
  }

  method DecodeDcFirst(d: Reader, dec: Decoding, t: Tables, sc: Scan, ci: nat, area: array<int>, at: nat,
                       ghost env: Env, ghost block: seq<int>, ghost rest: seq<Token>)
    returns (ok: bool, ghost ws: seq<Write>)
    requires d.Valid() && GoodEnv(env) && GoodHuff(t, sc) && SetUp(sc, dec) && sc.mode == DcFirst
    requires ci < |sc.comps| == |d.lastDcVal| && at + 64 <= area.Length && |block| == 64
    modifies d`pos, d`unreadMarker, d`getBuffer, d`bitsLeft, d`held, d`insufficientData, d`lastDcVal, area
    ensures d.Unmarked(ok) && |d.lastDcVal| == |sc.comps| && (ok ==> d.Valid())
    ensures Follows(ok, d.avail == |d.input|, DcFirstFrom(d.input, dec, t, sc, ci, old(StateOf(d)), at), StateOf(d), ws)
    ensures Worked(ok, sc, old(area[..]), area[..], ws)
    ensures BlockFits(t, sc, old(d.lastDcVal), ci, block) && old(d.InSync(env, DcBlock(t, sc, d.lastDcVal, ci, block) + rest))
            && HasTables(sc, env, dec) ==>
      (d.avail == |d.input| ==> ok) && BlockDone(ok, t, sc, old(area[..]), area[..], at, block)
      && (ok ==> d.InSync(env, rest) && d.lastDcVal == NextLast(sc, old(d.lastDcVal), ci, block))
  {
    hide Reader.Valid, Reader.InSync, GoodEnv, Shared, Accepted, AcceptedDc, SymbolsFit, IsOrder;
    hide DcTokens, DiffInRange, Shift, ToShort, Between, BlockEffect, Pow2;
    hide SetUp, HasTables, PredictorFrom, DcFirstFrom, DiffFrom, Wrote, Tells, Follows;
    var comp := sc.comps[ci];
    TablesHere(t, sc, env, dec, ci);
    ghost var area0, last := area[..], d.lastDcVal;
    ghost var sync := HasTables(sc, env, dec) && BlockFits(t, sc, last, ci, block) && d.InSync(env, DcBlock(t, sc, last, ci, block) + rest);
    if sync {
      EffectOf(t, sc, area0, at, block);
      AtFirst(area0, BlockEffect(t, sc, area0, at, block));
    }
    ws := [];
    WroteNothing(Corrects(sc.al), area[..]);
    ghost var s := StateOf(d);
    ok := DecodeDc(d, DcTable(comp.dcTbl), dec.tbls[DcTable(comp.dcTbl)], dec.derived[DcTable(comp.dcTbl)], ci,
                   if sync then Diff(sc, last, ci, block) else 0, env, rest);
    PredictorTold(ok, d.avail == |d.input|, d.input, dec, t, sc, ci, s, StateOf(d));
    if !ok {
      SequentialStuck(d.avail == |d.input|, d.input, dec, t, sc, ci, s, at, StateOf(d));
    } else {
      DcFirstTold(d.avail == |d.input|, d.input, dec, t, sc, ci, s, at, StateOf(d));
      ws := [Put(at, ToShort(d.lastDcVal[ci] * Pow2(sc.al)))];
      WroteOne(Corrects(sc.al), area[..], ws[0]);
      area[at] := ToShort(d.lastDcVal[ci] * Pow2(sc.al));
    }
  }

  // DC refinement: one raw bit, set in place.
  method DecodeDcRefine(d: Reader, t: Tables, sc: Scan, ci: nat, area: array<int>, at: nat,
                        ghost env: Env, ghost block: seq<int>, ghost rest: seq<Token>)
    returns (ok: bool, ghost ws: seq<Write>)
    requires d.Valid() && GoodEnv(env) && GoodHuff(t, sc) && sc.mode == DcRefine
    requires ci < |sc.comps| == |d.lastDcVal| && at + 64 <= area.Length && |block| == 64
    modifies d`pos, d`unreadMarker, d`getBuffer, d`bitsLeft, d`held, d`insufficientData, area
    ensures d.Unmarked(ok) && (ok ==> d.Valid())
    ensures Follows(ok, d.avail == |d.input|, DcRefineFrom(d.input, old(StateOf(d)), at), StateOf(d), ws)
    ensures Worked(ok, sc, old(area[..]), area[..], ws)
    ensures old(d.InSync(env, DcBlock(t, sc, d.lastDcVal, ci, block) + rest)) ==>
      (d.avail == |d.input| ==> ok) && BlockDone(ok, t, sc, old(area[..]), area[..], at, block)
      && (ok ==> d.InSync(env, rest))
  {
    Pow2First();
    hide Reader.Valid, Reader.InSync, GoodEnv, Shift, ToShort, Between, BlockEffect, Pow2, SetBit;
    ghost var area0, goal := area[..], DcBlock(t, sc, d.lastDcVal, ci, block) + rest;
    assert goal[1..] == rest;
    EffectOf(t, sc, area0, at, block);
    AtFirst(area0, BlockEffect(t, sc, area0, at, block));
    ws := [];
    hide Bits, Wrote;
    WroteNothing(SetsBit(sc.al), area0);
    WroteOne(SetsBit(sc.al), area0, Mend(at));
    var bit;
    ok, bit := d.ReadRaw(1, env, goal);
    if ok && bit == 1 {
      ws := [Mend(at)];
      area[at] := SetBit(area[at], sc.al);
    }
  }

  // ----- the blocks of AC scans -----

  lemma BandAhead(d: Reader, env: Env, t: Tables, sc: Scan, coefs: seq<int>, visits: seq<Visit>) returns (bs: seq<AcBlock>)
    requires GoodEnv(env) && d.Valid() && GoodHuff(t, sc) && GoodVisits(sc, visits, |coefs|) && visits != [] && CodesAc(sc.mode)
    requires AtVisits(d, env, t, sc, coefs, visits)
    ensures GoodVisits(sc, visits[1..], |coefs|)
    ensures BlockFits(t, sc, d.lastDcVal, visits[0].ci, Block(coefs, visits[0].blk))
    ensures AllFits(t, sc, d.lastDcVal, coefs, visits[1..])
    ensures bs != [] && bs[0] == BandOf(t, sc, Block(coefs, visits[0].blk))
    ensures bs[1..] == Bands(t, sc, d.lastDcVal, coefs, visits[1..])
    ensures AtBlocks(d, env, TheTable(sc), bs)
  {
    hide BandOf, AtBlocks, GoodScan, InRange, Zigzag;
    bs := Bands(t, sc, d.lastDcVal, coefs, visits);
    assert bs[1..] == Bands(t, sc, d.lastDcVal, coefs, visits[1..]);
  }

  method DecodeAcBlock(d: Reader, dec: Decoding, t: Tables, sc: Scan, area: array<int>, at: nat,
                     ghost env: Env, ghost block: seq<int>, ghost bs: seq<AcBlock>)
    returns (ok: bool, ghost ws: seq<Write>)
    requires d.Valid() && GoodEnv(env) && GoodHuff(t, sc) && SetUp(sc, dec) && CodesAc(sc.mode)
    requires at + 64 <= area.Length && IsBlock(block) && |d.lastDcVal| == 1
    modifies d`pos, d`unreadMarker, d`getBuffer, d`bitsLeft, d`held, d`insufficientData, d`eobrun, area
    ensures d.Unmarked(ok) && (ok ==> d.Valid())
    ensures Follows(ok, d.avail == |d.input|, AcBlockFrom(d.input, dec, t, sc, old(StateOf(d)), at, old(area[..])), StateOf(d), ws)
    ensures Worked(ok, sc, old(area[..]), area[..], ws)
    ensures HasTables(sc, env, dec) && (sc.mode == AcFirst ==> InRange(Zigzag(block, t.order, sc.al), sc.ss, sc.se))
            && bs != [] && bs[0] == BandOf(t, sc, block) && old(AtBlocks(d, env, TheTable(sc), bs))
            && Retriable(t, sc, old(area[..]), at, block) ==>
      (d.avail == |d.input| ==> ok) && BlockDone(ok, t, sc, old(area[..]), area[..], at, block)
      && (ok ==> AtBlocks(d, env, TheTable(sc), bs[1..]))
  {
    hide Reader.Valid, Reader.InSync, GoodEnv, Shared, Accepted, IsOrder, InRange, Zigzag, Between;
    hide BlockEffect, AtBlocks, Placed, FirstBlock, RefineBlock, FitsShort, Refinable;
    var comp := sc.comps[0];
    TablesHere(t, sc, env, dec, 0);
    var tbl := AcTable(comp.acTbl);
    hide SetUp, HasTables, AcFirstFrom, RefineFrom, Wrote, Abandoned;
    ghost var w := Zigzag(block, t.order, sc.al);
    EffectOf(t, sc, area[..], at, block);
    ZigzagFits(block, t.order, sc.al);
    if sc.mode == AcFirst {
      ok, ws := DecodeAcFirst(d, tbl, dec.tbls[tbl], dec.derived[tbl], area, at, t.order, sc.ss, sc.se, sc.al, env, w, bs);
    } else {
      ok, ws := DecodeAcRefine(d, tbl, dec.tbls[tbl], dec.derived[tbl], area, at, t.order, sc.ss, sc.se, sc.al, env, w, bs);
    }
  }

  // One block, by the routine of the scan; visits are what the segment still has, this block first.
  method DecodeBlock(d: Reader, dec: Decoding, t: Tables, sc: Scan, v: Visit, area: array<int>,
                     ghost env: Env, ghost coefs: seq<int>, ghost visits: seq<Visit>)
    returns (ok: bool, ghost ws: seq<Write>)
    requires d.Valid() && GoodEnv(env) && GoodHuff(t, sc) && SetUp(sc, dec)
    requires |d.lastDcVal| == |sc.comps| && IsImage(coefs) && area.Length == |coefs|
    requires GoodVisits(sc, visits, |coefs|) && visits != [] && visits[0] == v
    modifies d`pos, d`unreadMarker, d`getBuffer, d`bitsLeft, d`held, d`insufficientData, d`lastDcVal, d`eobrun, area
    ensures d.Unmarked(ok) && |d.lastDcVal| == |sc.comps| && (ok ==> d.Valid())
    ensures Follows(ok, d.avail == |d.input|, BlockFrom(d.input, dec, t, sc, v, old(StateOf(d)), old(area[..])), StateOf(d), ws)
    ensures Worked(ok, sc, old(area[..]), area[..], ws)
    ensures HasTables(sc, env, dec) && old(AtVisits(d, env, t, sc, coefs, visits))
            && Retriable(t, sc, old(area[..]), 64 * v.blk, Block(coefs, v.blk)) ==>
      (d.avail == |d.input| ==> ok) && BlockDone(ok, t, sc, old(area[..]), area[..], 64 * v.blk, Block(coefs, v.blk))
      && (ok ==> AtVisits(d, env, t, sc, coefs, visits[1..]))
  {
    hide Reader.Valid, Reader.InSync, GoodEnv, GoodScan, Shared, BlockFits, DcBlock, BandOf;
    hide Retriable, BlockDone, AtBlocks, HasTables, SetUp, Block;
    hide SequentialFrom, DcFirstFrom, DcRefineFrom, AcBlockFrom, Worked;
    ghost var block := Block(coefs, v.blk);
    ImageBlock(coefs, v.blk);
    ghost var sync := HasTables(sc, env, dec) && AtVisits(d, env, t, sc, coefs, visits);
    if CodesAc(sc.mode) {
      ghost var bs := [];
      if sync { bs := BandAhead(d, env, t, sc, coefs, visits); }
      if sync && sc.mode == AcFirst { FirstFits(t, sc, d.lastDcVal, v.ci, block); }
      ok, ws := DecodeAcBlock(d, dec, t, sc, area, 64 * v.blk, env, block, bs);
    } else {
      ghost var rest: seq<Token> := [];
      if sync {
        DcBlockAhead(d, env, t, sc, coefs, visits);
        rest := DcBlocks(t, sc, NextLast(sc, d.lastDcVal, v.ci, block), coefs, visits[1..]);
      }
      match sc.mode {
        case Sequential => ok, ws := DecodeSequential(d, dec, t, sc, v.ci, area, 64 * v.blk, env, block, rest);
        case DcFirst => ok, ws := DecodeDcFirst(d, dec, t, sc, v.ci, area, 64 * v.blk, env, block, rest);
        case DcRefine => ok, ws := DecodeDcRefine(d, t, sc, v.ci, area, 64 * v.blk, env, block, rest);
      }
    }
  }

  lemma ImageBlock(coefs: seq<int>, blk: nat)
    requires IsImage(coefs) && 64 * blk + 64 <= |coefs|
    ensures IsBlock(Block(coefs, blk))
  {
  }

  lemma FirstFits(t: Tables, sc: Scan, last: seq<int>, ci: nat, block: seq<int>)
    requires GoodHuff(t, sc) && ci < |last| && |block| == 64 && sc.mode == AcFirst && BlockFits(t, sc, last, ci, block)
    ensures InRange(Zigzag(block, t.order, sc.al), sc.ss, sc.se)
  {
  }
}
