// Whole scans: every block of every MCU, restart intervals, and the bytes in between.
module ArithScan {
  import opened Numbers
  import opened ArithInterval
  import opened ArithCode
  import opened ArithEncoder
  import opened ArithDecoder
  import opened ArithModel
  import opened ArithDecodeMcu
  import opened ArithBlock
  import opened Scans

  ghost function VisitsDecisions(t: Tables, sc: Scan, s: DcState, coefs: seq<int>, visits: seq<Visit>): seq<Decision>
    requires GoodScan(t, sc) && s.Ok(|sc.comps|) && GoodVisits(sc, visits, |coefs|)
    decreases |visits|
  {
    if visits == [] then []
    else
      var v, b := visits[0], Block(coefs, visits[0].blk);
      BlockDecisions(t, sc, s, v.ci, b) + VisitsDecisions(t, sc, NextDc(t, sc, s, v.ci, b), coefs, visits[1..])
  }

  // Every DC difference is in the range the decoder can follow.
  ghost predicate DiffsFit(t: Tables, sc: Scan, s: DcState, coefs: seq<int>, visits: seq<Visit>)
    requires GoodScan(t, sc) && s.Ok(|sc.comps|) && GoodVisits(sc, visits, |coefs|)
    decreases |visits|
  {
    visits == [] ||
    var v, b := visits[0], Block(coefs, visits[0].blk);
    && (CodesDc(sc.mode) ==> Abs(Shift(b[0], sc.al) - s.last[v.ci]) <= 0x8000)
    && DiffsFit(t, sc, NextDc(t, sc, s, v.ci, b), coefs, visits[1..])
  }

  ghost predicate ShortDc(s: DcState) {
    forall i :: 0 <= i < |s.last| ==> -0x8000 <= s.last[i] < 0x8000
  }

  // The blocks of a run of MCUs without a restart in between.
  method EncodeVisits(e: Encoder, t: Tables, sc: Scan, coefs: seq<int>, visits: seq<Visit>)
    requires e.Traced() && GoodScan(t, sc) && EncDc(e).Ok(|sc.comps|) && ShortDc(EncDc(e))
    requires IsImage(coefs) && GoodVisits(sc, visits, |coefs|)
    modifies e, e.stats
    ensures e.Traced() && e.before == old(e.before) && e.origin == old(e.origin) && |e.lastDcVal| == |old(e.lastDcVal)|
    ensures e.log == old(e.log) + VisitsDecisions(t, sc, old(EncDc(e)), coefs, visits)
  {
    hide Encoder.Traced, BlockDecisions, NextContext, GoodScan, Shift;
    var i := 0;
    assert visits[0..] == visits;
    while i < |visits|
      invariant 0 <= i <= |visits|
      invariant e.Traced() && e.before == old(e.before) && e.origin == old(e.origin)
      invariant EncDc(e).Ok(|sc.comps|) && ShortDc(EncDc(e)) && GoodVisits(sc, visits[i..], |coefs|)
      invariant e.log + VisitsDecisions(t, sc, EncDc(e), coefs, visits[i..])
        == old(e.log) + VisitsDecisions(t, sc, old(EncDc(e)), coefs, visits)
    {
      ghost var rest := visits[i..];
      assert rest[0] == visits[i] && rest[1..] == visits[i + 1..];
      var block := Block(coefs, visits[i].blk);
      ShiftFits(block[0], sc.al);
      EncodeBlock(e, t, sc, visits[i].ci, block);
      i := i + 1;
    }
  }

  method DecodeVisits(d: Decoder, t: Tables, sc: Scan, area: array<int>, visits: seq<Visit>, ghost coefs: seq<int>, ghost rest: seq<Decision>)
    returns (status: Status)
    requires d.Valid() && GoodScan(t, sc) && DecDc(d).Ok(|sc.comps|)
    requires IsImage(coefs) && |coefs| == area.Length && GoodVisits(sc, visits, |coefs|) && Distinct(visits)
    modifies d, d.stats, area
    ensures status == Done ==> d.Valid() && DecDc(d).Ok(|sc.comps|) && d.landing == old(d.landing)
    ensures (AllReady(t, sc, old(area[..]), coefs, visits)
             && old(d.InSync(VisitsDecisions(t, sc, DecDc(d), coefs, visits) + rest))) ==>
      status != Dry
      && (status == Done <==> DiffsFit(t, sc, old(DecDc(d)), coefs, visits))
      && (status == Done ==> d.InSync(rest) && area[..] == VisitsEffect(t, sc, old(area[..]), coefs, visits))
  {
    hide Decoder.Valid, Decoder.InSync, BlockDecisions, BlockEffect, Ready, NextDc, Shift;
    status := Done;
    ghost var area0, s0 := area[..], DecDc(d);
    ghost var sync := AllReady(t, sc, area0, coefs, visits) && d.InSync(VisitsDecisions(t, sc, s0, coefs, visits) + rest);
    var i := 0;
    assert visits[0..] == visits;
    while i < |visits|
      invariant 0 <= i <= |visits| && status == Done && d.landing == old(d.landing)
      invariant d.Valid() && DecDc(d).Ok(|sc.comps|) && GoodVisits(sc, visits[i..], |coefs|)
      invariant sync ==> d.InSync(VisitsDecisions(t, sc, DecDc(d), coefs, visits[i..]) + rest)
      invariant sync ==> AllReady(t, sc, area[..], coefs, visits[i..])
      invariant sync ==> VisitsEffect(t, sc, area[..], coefs, visits[i..]) == VisitsEffect(t, sc, area0, coefs, visits)
      invariant sync ==> (DiffsFit(t, sc, DecDc(d), coefs, visits[i..]) <==> DiffsFit(t, sc, s0, coefs, visits))
    {
      ghost var left, block := visits[i..], Block(coefs, visits[i].blk);
      assert left[0] == visits[i] && left[1..] == visits[i + 1..];
      ghost var s1 := DecDc(d);
      ghost var later := VisitsDecisions(t, sc, NextDc(t, sc, s1, visits[i].ci, block), coefs, left[1..]) + rest;
      assert VisitsDecisions(t, sc, s1, coefs, left) + rest == BlockDecisions(t, sc, s1, visits[i].ci, block) + later;
      if sync {
        StillReady(t, sc, area[..], coefs, left);
      }
      status := DecodeBlock(d, t, sc, visits[i].ci, area, 64 * visits[i].blk, block, later);
      if status != Done {
        return;
      }
      i := i + 1;
    }
    assert VisitsDecisions(t, sc, DecDc(d), coefs, visits[i..]) + rest == rest;
  }

  // ----- restart intervals -----

  function FreshDc(n: nat): (s: DcState)
    ensures s.Ok(n)
  {
    DcState(seq(n, _ => 0), seq(n, _ => 0))
  }

  ghost function SegmentDecisions(t: Tables, sc: Scan, coefs: seq<int>, visits: seq<Visit>): seq<Decision>
    requires GoodScan(t, sc) && GoodVisits(sc, visits, |coefs|)
  {
    VisitsDecisions(t, sc, FreshDc(|sc.comps|), coefs, visits)
  }

  // parts are the bytes of the segments of a scan.
  ghost predicate CodedBy(t: Tables, sc: Scan, coefs: seq<int>, segments: seq<seq<Visit>>, parts: seq<seq<Byte>>)
    requires GoodScan(t, sc) && GoodSegments(sc, segments, |coefs|)
  {
    |parts| == |segments| &&
    forall i :: 0 <= i < |parts| ==> Segment(parts[i], SegmentDecisions(t, sc, coefs, segments[i]))
  }

  // The bytes are those of a coded scan.
  ghost predicate Codes(t: Tables, sc: Scan, coefs: seq<int>, segments: seq<seq<Visit>>, bytes: seq<Byte>)
    requires GoodScan(t, sc) && GoodSegments(sc, segments, |coefs|)
  {
    exists parts :: |parts| == |segments| && CodedBy(t, sc, coefs, segments, parts) && bytes == Joined(parts, 0)
  }

  // A scan: start_pass, the MCUs with restarts between the segments, finish_pass.
  method EncodeScan(t: Tables, sc: Scan, coefs: seq<int>, segments: seq<seq<Visit>>) returns (bytes: seq<Byte>)
    requires GoodScan(t, sc) && IsImage(coefs) && GoodSegments(sc, segments, |coefs|)
    ensures Codes(t, sc, coefs, segments, bytes)
  {
    hide Encoder.Traced, GoodScan, Segment, VisitsDecisions;
    var e := new Encoder(|sc.comps|);
    ghost var parts: seq<seq<Byte>> := [];
    var i := 0;
    while true
      invariant 0 <= i < |segments| && |parts| == i && fresh(e) && fresh(e.stats)
      invariant e.AtStart() && |e.lastDcVal| == |sc.comps| && e.out == Lead(parts, i)
      invariant forall j :: 0 <= j < i ==> Segment(parts[j], SegmentDecisions(t, sc, coefs, segments[j]))
      decreases |segments| - i
    {
      assert EncDc(e) == FreshDc(|sc.comps|);
      EncodeVisits(e, t, sc, coefs, segments[i]);
      assert e.log == SegmentDecisions(t, sc, coefs, segments[i]);
      if i == |segments| - 1 {
        break;
      }
      ghost var before := e.before;
      e.EmitRestart(i % 8);
      ghost var part := e.out[|before|..|e.out| - 2];
      assert e.out == before + part + [0xFF, 0xD0 + i % 8];
      LeadPrefix(parts, [part], i);
      parts := parts + [part];
      i := i + 1;
    }
    ghost var before := e.before;
    e.Finish();
    bytes := e.out;
    LeadPrefix(parts, [bytes[|before|..]], i);
    parts := parts + [bytes[|before|..]];
    LeadJoined(parts, i);
    assert bytes == before + bytes[|before|..];
  }

  ghost predicate AllFit(t: Tables, sc: Scan, coefs: seq<int>, segments: seq<seq<Visit>>)
    requires GoodScan(t, sc) && GoodSegments(sc, segments, |coefs|)
  {
    forall i :: 0 <= i < |segments| ==> DiffsFit(t, sc, FreshDc(|sc.comps|), coefs, segments[i])
  }

  // The decoder starts segment i in step, and will land on the marker after it.
  lemma Opening(d: Decoder, parts: seq<seq<Byte>>, i: nat, marker: Byte, after: seq<Byte>, ds: seq<Decision>)
    requires d.AtStart() && i < |parts| && Segment(parts[i], ds) && 0 < marker < 0xFF
    requires d.input[d.pos..] == Joined(parts, i) + ([0xFF, marker] + after)
    ensures d.InSync(ds)
    ensures i < |parts| - 1 ==> d.landing == (0xD0 + i % 8, Joined(parts, i + 1) + ([0xFF, marker] + after))
  {
    hide Decoder.InSync, Decoder.Valid, Segment;
    var end := [0xFF, marker] + after;
    if i == |parts| - 1 {
      assert Joined(parts, i) + end == parts[i] + [0xFF, marker] + after;
      d.Synchronized(parts[i], marker, after, ds);
    } else {
      var rst: Byte := 0xD0 + i % 8;
      assert Joined(parts, i) + end == parts[i] + [0xFF, rst] + (Joined(parts, i + 1) + end);
      d.Synchronized(parts[i], rst, Joined(parts, i + 1) + end, ds);
    }
  }

  lemma StillAhead(d: Decoder, ds: seq<Decision>)
    requires d.Valid() && d.InSync(ds)
    ensures d.Ahead() && d.MarkerAhead()
  {
  }

  // One segment, and the restart marker after it unless it is the last.
  method DecodeSegment(d: Decoder, t: Tables, sc: Scan, area: array<int>, visits: seq<Visit>, i: nat, last: bool,
                       ghost coefs: seq<int>, ghost parts: seq<seq<Byte>>, ghost marker: Byte, ghost after: seq<Byte>)
    returns (status: Status)
    requires d.AtStart() && |d.lastDcVal| == |sc.comps| && GoodScan(t, sc) && 0 < marker < 0xFF
    requires IsImage(coefs) && |coefs| == area.Length && GoodVisits(sc, visits, |coefs|) && Distinct(visits)
    modifies d, d.stats, area
    ensures status == Done && !last ==> d.AtStart() && |d.lastDcVal| == |sc.comps|
    ensures (i < |parts| && (last <==> i == |parts| - 1) && Segment(parts[i], SegmentDecisions(t, sc, coefs, visits))
             && d.input[old(d.pos)..] == Joined(parts, i) + ([0xFF, marker] + after)
             && AllReady(t, sc, old(area[..]), coefs, visits)) ==>
      status != Dry && (status == Done <==> DiffsFit(t, sc, FreshDc(|sc.comps|), coefs, visits))
      && (status == Done ==>
            area[..] == VisitsEffect(t, sc, old(area[..]), coefs, visits)
            && (!last ==> d.input[d.pos..] == Joined(parts, i + 1) + ([0xFF, marker] + after)))
  {
    hide Decoder.Valid, Decoder.InSync, GoodScan, Segment, VisitsDecisions, VisitsEffect, AllReady, DiffsFit, Joined;
    ghost var ds := SegmentDecisions(t, sc, coefs, visits);
    ghost var sync := i < |parts| && (last <==> i == |parts| - 1) && Segment(parts[i], ds)
      && d.input[d.pos..] == Joined(parts, i) + ([0xFF, marker] + after) && AllReady(t, sc, area[..], coefs, visits);
    if sync {
      Opening(d, parts, i, marker, after, ds);
      assert ds + [] == ds;
    }
    assert DecDc(d) == FreshDc(|sc.comps|);
    status := DecodeVisits(d, t, sc, area, visits, coefs, []);
    if status == Done && !last {
      if sync { StillAhead(d, []); }
      var ok := d.ProcessRestart(i % 8);
      if !ok {
        status := Dry;
      }
    }
  }

  // Reading a scan back from bytes that end in a marker.
  method DecodeScan(t: Tables, sc: Scan, input: seq<Byte>, area: array<int>, segments: seq<seq<Visit>>,
                    ghost coefs: seq<int>, ghost parts: seq<seq<Byte>>, ghost marker: Byte, ghost after: seq<Byte>)
    returns (status: Status)
    requires GoodScan(t, sc) && IsImage(coefs) && |coefs| == area.Length && GoodSegments(sc, segments, |coefs|)
    requires Distinct(Flat(segments)) && 0 < marker < 0xFF
    modifies area
    ensures GoodVisits(sc, Flat(segments), |coefs|)
    ensures (CodedBy(t, sc, coefs, segments, parts) && input == Joined(parts, 0) + ([0xFF, marker] + after)
             && AllReady(t, sc, old(area[..]), coefs, Flat(segments))) ==>
      status != Dry && (status == Done <==> AllFit(t, sc, coefs, segments))
      && (status == Done ==> area[..] == VisitsEffect(t, sc, old(area[..]), coefs, Flat(segments)))
  {
    hide GoodScan, Segment, SegmentDecisions, BlockEffect, VisitsEffect, AllReady, DiffsFit, Distinct, Joined, FreshDc;
    hide Decoder.Valid, GoodVisits;
    FlatGood(sc, segments, |coefs|);
    ghost var area0, end, n := area[..], [0xFF, marker] + after, |segments|;
    ghost var sync := CodedBy(t, sc, coefs, segments, parts) && input == Joined(parts, 0) + end
      && AllReady(t, sc, area0, coefs, Flat(segments));
    var d := new Decoder(input, |sc.comps|);
    var i := 0;
    assert input[0..] == input && segments[0..] == segments;
    while true
      invariant 0 <= i < n && fresh(d) && fresh(d.stats) && d.input == input
      invariant d.AtStart() && |d.lastDcVal| == |sc.comps|
      invariant GoodVisits(sc, Flat(segments[i..]), |coefs|) && Distinct(Flat(segments[i..]))
      invariant sync ==> input[d.pos..] == Joined(parts, i) + end
      invariant sync ==> AllReady(t, sc, area[..], coefs, Flat(segments[i..]))
      invariant sync ==> VisitsEffect(t, sc, area[..], coefs, Flat(segments[i..])) == VisitsEffect(t, sc, area0, coefs, Flat(segments))
      invariant sync ==> forall j :: 0 <= j < i ==> DiffsFit(t, sc, FreshDc(|sc.comps|), coefs, segments[j])
      decreases n - i
    {
      ghost var seg, later := segments[i], Flat(segments[i + 1..]);
      FlatFrom(segments, i);
      FlatGood(sc, segments[i + 1..], |coefs|);
      DistinctParts(seg, later);
      if sync {
        ReadyPrefix(t, sc, area[..], coefs, seg, later);
        ReadyAfter(t, sc, area[..], coefs, seg, later);
        EffectConcat(t, sc, area[..], coefs, seg, later);
      }
      var last := i == |segments| - 1;
      status := DecodeSegment(d, t, sc, area, segments[i], i, last, coefs, parts, marker, after);
      if status != Done {
        return;
      }
      if last {
        assert segments[i + 1..] == [];
        EffectNone(t, sc, area[..], coefs);
        return;
      }
      i := i + 1;
    }
  }

  // Two blocks of a component that no sequential scan carries across: their DC values are 0x8001 apart.
  function FarApart(): (coefs: seq<int>)
    ensures |coefs| == 128 && coefs[0] == -0x8000 && coefs[64] == 1
    ensures forall k :: 0 <= k < 128 && k != 0 && k != 64 ==> coefs[k] == 0
  {
    seq(128, k => if k == 0 then -0x8000 else if k == 64 then 1 else 0)
  }

  // The coder takes them, and the decoder's status cannot be Done.
  lemma DifferenceTooLarge(t: Tables, sc: Scan)
    requires GoodScan(t, sc) && sc.mode == Sequential && |sc.comps| == 1
    ensures var segments := [[Visit(0, 0), Visit(0, 1)]];
      IsImage(FarApart()) && GoodSegments(sc, segments, 128) && !AllFit(t, sc, FarApart(), segments)
  {
    hide GoodScan, NextContext;
    var coefs, visits := FarApart(), [Visit(0, 0), Visit(0, 1)];
    var s := FreshDc(|sc.comps|);
    assert visits[1..] == [Visit(0, 1)];
    assert Pow2(0) == 1 && sc.al == 0 by { AlZero(t, sc); }
    assert Block(coefs, 0)[0] == -0x8000 && Block(coefs, 1)[0] == 1;
    var s1 := NextDc(t, sc, s, 0, Block(coefs, 0));
    assert s1.last[0] == -0x8000;
    assert !DiffsFit(t, sc, s1, coefs, visits[1..]);
    assert !DiffsFit(t, sc, s, coefs, visits);
    assert [visits][0] == visits;
  }

  lemma AlZero(t: Tables, sc: Scan)
    requires GoodScan(t, sc) && sc.mode == Sequential
    ensures sc.al == 0
  {
  }
}
