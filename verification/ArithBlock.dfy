// One block of a scan: the sequential routine and the four progressive ones.
module ArithBlock {
  import opened Numbers
  import opened ArithInterval
  import opened ArithEncoder
  import opened ArithDecoder
  import opened ArithModel
  import opened ArithEncodeMcu
  import opened ArithDecodeMcu
  import opened Scans

  datatype DcState = DcState(last: seq<int>, context: seq<nat>) {
    ghost predicate Ok(n: nat) {
      |last| == |context| == n && forall i :: 0 <= i < n ==> context[i] <= 16
    }
  }

  // ----- what one block contributes to the code -----

  function DcPart(t: Tables, sc: Scan, s: DcState, ci: nat, block: seq<int>): seq<Decision>
    requires GoodScan(t, sc) && ci < |sc.comps| && s.Ok(|sc.comps|) && |block| == 64
  {
    var base := DcStats(sc.comps[ci].dcTbl);
    DcDecisions(base, base + s.context[ci], Shift(block[0], sc.al) - s.last[ci])
  }

  function AcPart(t: Tables, sc: Scan, ci: nat, block: seq<int>, ss: nat): seq<Decision>
    requires GoodScan(t, sc) && ci < |sc.comps| && |block| == 64 && 1 <= ss
  {
    var tbl, w := sc.comps[ci].acTbl, Zigzag(block, t.order, sc.al);
    AcDecisions(AcStats(tbl), w, t.acK[tbl], ss, EobIndex(w, sc.se), sc.se)
  }

  function RefinePart(t: Tables, sc: Scan, ci: nat, block: seq<int>): seq<Decision>
    requires GoodScan(t, sc) && ci < |sc.comps| && |block| == 64 && 1 <= sc.ss
  {
    var a := Zigzag(block, t.order, sc.al);
    var ke := EobIndex(a, sc.se);
    RefineDecisions(AcStats(sc.comps[ci].acTbl), a, EobIndex(Zigzag(block, t.order, sc.ah), ke), sc.ss, ke, sc.se)
  }

  function BlockDecisions(t: Tables, sc: Scan, s: DcState, ci: nat, block: seq<int>): seq<Decision>
    requires GoodScan(t, sc) && ci < |sc.comps| && s.Ok(|sc.comps|) && |block| == 64
  {
    match sc.mode
    case Sequential => DcPart(t, sc, s, ci, block) + AcPart(t, sc, ci, block, 1)
    case DcFirst => DcPart(t, sc, s, ci, block)
    case AcFirst => AcPart(t, sc, ci, block, sc.ss)
    case DcRefine => [D(FIXED_BIN, Shift(block[0], sc.al) % 2)]
    case AcRefine => RefinePart(t, sc, ci, block)
  }

  function NextDc(t: Tables, sc: Scan, s: DcState, ci: nat, block: seq<int>): (r: DcState)
    requires GoodScan(t, sc) && ci < |sc.comps| && s.Ok(|sc.comps|) && |block| == 64
    ensures r.Ok(|sc.comps|)
  {
    if CodesDc(sc.mode) then
      var tbl, v := sc.comps[ci].dcTbl, Shift(block[0], sc.al);
      NextContextRange(v - s.last[ci], t.dcL[tbl], t.dcU[tbl]);
      DcState(s.last[ci := v], s.context[ci := NextContext(v - s.last[ci], t.dcL[tbl], t.dcU[tbl])])
    else s
  }

  // The coefficients nonzero at al + 1 are those that are at least 2 at al.
  lemma EobxAgrees(block: seq<int>, order: seq<nat>, al: nat, ke: nat)
    requires IsOrder(order) && IsBlock(block) && ke < 64
    ensures IsEobx(Zigzag(block, order, al), EobIndex(Zigzag(block, order, al + 1), ke), ke)
  {
    var a, p := Zigzag(block, order, al), Zigzag(block, order, al + 1);
    forall k | 0 <= k < 64
      ensures p[k] != 0 <==> Abs(a[k]) / 2 != 0
    {
      PointParts(block[order[k]], al);
      PointParts(block[order[k]], al + 1);
      DivTwice(Abs(block[order[k]]), Pow2(al));
    }
  }

  // ----- the encoder -----

  ghost function EncDc(e: Encoder): DcState
    reads e
  {
    DcState(e.lastDcVal, e.dcContext)
  }

  ghost function DecDc(d: Decoder): DcState
    reads d
  {
    DcState(d.lastDcVal, d.dcContext)
  }

  method EncodeBlock(e: Encoder, t: Tables, sc: Scan, ci: nat, block: seq<int>)
    requires e.Traced() && GoodScan(t, sc) && ci < |sc.comps|
    requires EncDc(e).Ok(|sc.comps|) && IsBlock(block)
    requires CodesDc(sc.mode) ==> Abs(Shift(block[0], sc.al) - e.lastDcVal[ci]) < 0x10000
    modifies e, e.stats
    ensures e.Traced() && e.before == old(e.before) && e.origin == old(e.origin)
    ensures e.log == old(e.log) + BlockDecisions(t, sc, old(EncDc(e)), ci, block)
    ensures EncDc(e) == NextDc(t, sc, old(EncDc(e)), ci, block)
  {
    hide Encoder.Traced, DcDecisions, AcDecisions, RefineDecisions, NextContext, Zigzag, EobIndex;
    var dcTbl, acTbl := sc.comps[ci].dcTbl, sc.comps[ci].acTbl;
    match sc.mode {
      case Sequential =>
        EncodeDc(e, dcTbl, ci, t.dcL[dcTbl], t.dcU[dcTbl], Shift(block[0], sc.al));
        EncodeAc(e, acTbl, t.acK[acTbl], block, t.order, 1, sc.se, sc.al);
      case DcFirst =>
        EncodeDc(e, dcTbl, ci, t.dcL[dcTbl], t.dcU[dcTbl], Shift(block[0], sc.al));
      case AcFirst =>
        EncodeAc(e, acTbl, t.acK[acTbl], block, t.order, sc.ss, sc.se, sc.al);
      case DcRefine =>
        e.Put(FIXED_BIN, Shift(block[0], sc.al) % 2);
      case AcRefine =>
        EncodeAcRefine(e, acTbl, block, t.order, sc.ss, sc.se, sc.ah, sc.al);
    }
  }

  // ----- the decoder -----

  // DC part of a block: decoding succeeds exactly when the difference fits.
  method DecodeDcPart(d: Decoder, t: Tables, sc: Scan, ci: nat, ghost block: seq<int>, ghost rest: seq<Decision>)
    returns (status: Status)
    requires d.Valid() && GoodScan(t, sc) && ci < |sc.comps|
    requires DecDc(d).Ok(|sc.comps|) && |block| == 64 && CodesDc(sc.mode)
    modifies d, d.stats
    ensures status == Done ==> d.Valid() && DecDc(d).Ok(|sc.comps|) && d.landing == old(d.landing)
    ensures old(d.InSync(DcPart(t, sc, DecDc(d), ci, block) + rest)) ==>
      status != Dry && (status == Done <==> Abs(Shift(block[0], sc.al) - old(d.lastDcVal[ci])) <= 0x8000)
      && (status == Done ==>
            d.InSync(rest) && DecDc(d) == NextDc(t, sc, old(DecDc(d)), ci, block)
            && d.lastDcVal[ci] == Shift(block[0], sc.al))
  {
    hide Decoder.Valid, Decoder.InSync, DcDecisions, NextContext, Shift;
    var tbl := sc.comps[ci].dcTbl;
    status := DecodeDc(d, tbl, ci, t.dcL[tbl], t.dcU[tbl], Shift(block[0], sc.al), rest);
  }

  method DecodeBlock(d: Decoder, t: Tables, sc: Scan, ci: nat, area: array<int>, at: nat, ghost block: seq<int>, ghost rest: seq<Decision>)
    returns (status: Status)
    requires d.Valid() && GoodScan(t, sc) && ci < |sc.comps|
    requires DecDc(d).Ok(|sc.comps|) && IsBlock(block) && at + 64 <= area.Length
    modifies d, d.stats, area
    ensures status == Done ==> d.Valid() && DecDc(d).Ok(|sc.comps|) && d.landing == old(d.landing)
    ensures (Ready(t, sc, old(area[..]), at, block) && old(d.InSync(BlockDecisions(t, sc, DecDc(d), ci, block) + rest))) ==>
      status != Dry
      && (status == Done <==> (CodesDc(sc.mode) ==> Abs(Shift(block[0], sc.al) - old(d.lastDcVal[ci])) <= 0x8000))
      && (status == Done ==>
            d.InSync(rest) && DecDc(d) == NextDc(t, sc, old(DecDc(d)), ci, block)
            && area[..] == BlockEffect(t, sc, old(area[..]), at, block))
  {
    hide Decoder.Valid, Decoder.InSync, AcDecisions, RefineDecisions, DcPart, Zigzag, EobIndex, Placed, ToShort, Shift, Pow2;
    hide FitsShort, Unrefined, IsEobx, NextContext;
    var acTbl := sc.comps[ci].acTbl;
    ghost var w := Zigzag(block, t.order, sc.al);
    ZigzagFits(block, t.order, sc.al);
    match sc.mode {
      case Sequential =>
        ghost var acPart := AcPart(t, sc, ci, block, 1);
        assert DcPart(t, sc, DecDc(d), ci, block) + acPart + rest == DcPart(t, sc, DecDc(d), ci, block) + (acPart + rest);
        status := DecodeDcPart(d, t, sc, ci, block, acPart + rest);
        if status == Done {
          area[at] := ToShort(d.lastDcVal[ci] * Pow2(sc.al));
          status := DecodeAc(d, acTbl, t.acK[acTbl], area, at, t.order, 1, sc.se, sc.al, w, rest);
        }
      case DcFirst =>
        status := DecodeDcPart(d, t, sc, ci, block, rest);
        if status == Done {
          area[at] := ToShort(d.lastDcVal[ci] * Pow2(sc.al));
        }
      case AcFirst =>
        status := DecodeAc(d, acTbl, t.acK[acTbl], area, at, t.order, sc.ss, sc.se, sc.al, w, rest);
      case DcRefine =>
        ghost var goal := [D(FIXED_BIN, Shift(block[0], sc.al) % 2)] + rest;
        assert goal[1..] == rest;
        var ok, bit := d.ReadBit(FIXED_BIN, goal);
        status := if ok then Done else Dry;
        if ok && bit == 1 {
          area[at] := SetBit(area[at], sc.al);
        }
      case AcRefine =>
        ghost var ke := EobIndex(w, sc.se);
        EobxAgrees(block, t.order, sc.al, ke);
        status := DecodeAcRefine(d, acTbl, area, at, t.order, sc.ss, sc.se, sc.al, w,
                                 EobIndex(Zigzag(block, t.order, sc.ah), ke), rest);
    }
  }
}
