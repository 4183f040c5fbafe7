// Reading a Huffman-coded scan back, with its restarts, from bytes that arrive whenever they do.
module HuffDecodeScan {
  import opened Numbers
  import opened Scans
  import opened HuffTokens
  import opened HuffWriter
  import opened HuffReader
  import opened HuffEobRun
  import opened HuffAcFirst
  import opened HuffBlock
  import opened HuffMcu
  import opened HuffWhole
  import opened HuffDecode
  import opened HuffScan

  // The MCUs of a scan, in segments between restarts.
  type Plan = seq<seq<Mcu>>

  function Segments(plan: Plan): (r: seq<seq<Visit>>)
    ensures |r| == |plan| && forall i :: 0 <= i < |plan| ==> r[i] == Flat(plan[i])
  {
    seq(|plan|, i requires 0 <= i < |plan| => Flat(plan[i]))
  }

  ghost function GoodPlan(sc: Scan, plan: Plan, size: nat): (yes: bool)
    ensures yes ==> GoodSegments(sc, Segments(plan), size)
  {
    plan != [] && forall i :: 0 <= i < |plan| ==> GoodMcus(sc, plan[i], size)
  }

  // The decoder starts a segment in step, and will land on the marker after it.
  ghost method Open(d: Reader, env: Env, t: Tables, sc: Scan, coefs: seq<int>, visits: seq<Visit>, part: seq<Byte>, marker: Byte, rest: seq<Byte>)
    requires d.AtStart() && |d.lastDcVal| == |sc.comps| && GoodEnv(env) && GoodHuff(t, sc) && GoodVisits(sc, visits, |coefs|)
    requires PartOf(env, t, sc, coefs, visits, part) && 0 < marker < 0xFF
    requires d.input[d.pos..] == part + [0xFF, marker] + rest
    modifies d`pad
    ensures d.Valid() && AtVisits(d, env, t, sc, coefs, visits) && d.landing == (marker, rest)
  {
    hide HuffSegment, AllFits, Bands, DcBlocks, Owed, GoodScan, GoodEnv, Reader.InSync;
    StartsFresh(d, sc);
    d.Synchronize(env, part, marker, rest, SegmentTokens(t, sc, coefs, visits));
    if CodesAc(sc.mode) { OwedNow(d, env, t, sc, coefs, visits); }
  }

  lemma StartsFresh(d: Reader, sc: Scan)
    requires d.AtStart() && |d.lastDcVal| == |sc.comps|
    ensures d.lastDcVal == FreshLast(sc) && d.eobrun == 0
  {
    hide Reader.Valid;
  }

  lemma OwedNow(d: Reader, env: Env, t: Tables, sc: Scan, coefs: seq<int>, visits: seq<Visit>)
    requires d.Valid() && d.eobrun == 0 && GoodEnv(env) && GoodHuff(t, sc) && GoodVisits(sc, visits, |coefs|) && CodesAc(sc.mode)
    requires SegmentFits(t, sc, coefs, visits) && d.InSync(env, SegmentTokens(t, sc, coefs, visits))
    ensures AtBlocks(d, env, TheTable(sc), Bands(t, sc, FreshLast(sc), coefs, visits))
  {
    hide Bands, GoodScan, GoodEnv, Reader.InSync, Stream;
    NoRun(TheTable(sc), Bands(t, sc, FreshLast(sc), coefs, visits));
  }

  // The segment from its start, among those that follow.
  ghost method Opening(d: Reader, env: Env, t: Tables, sc: Scan, coefs: seq<int>, visits: seq<Visit>, parts: seq<seq<Byte>>, i: nat,
                       marker: Byte, after: seq<Byte>)
    requires d.AtStart() && |d.lastDcVal| == |sc.comps| && GoodEnv(env) && GoodHuff(t, sc) && GoodVisits(sc, visits, |coefs|)
    requires i < |parts| && PartOf(env, t, sc, coefs, visits, parts[i]) && 0 < marker < 0xFF
    requires d.input[d.pos..] == Joined(parts, i) + ([0xFF, marker] + after)
    modifies d`pad
    ensures d.Valid() && AtVisits(d, env, t, sc, coefs, visits)
    ensures i < |parts| - 1 ==> d.landing == (0xD0 + i % 8, Joined(parts, i + 1) + ([0xFF, marker] + after))
  {
    hide AtVisits, GoodVisits, GoodHuff, GoodEnv, PartOf, Reader.Valid, Reader.AtStart;
    var end := [0xFF, marker] + after;
    if i == |parts| - 1 {
      assert Joined(parts, i) + end == parts[i] + [0xFF, marker] + after;
      Open(d, env, t, sc, coefs, visits, parts[i], marker, after);
    } else {
      var rst: Byte := 0xD0 + i % 8;
      assert Joined(parts, i) + end == parts[i] + [0xFF, rst] + (Joined(parts, i + 1) + end);
      Open(d, env, t, sc, coefs, visits, parts[i], rst, Joined(parts, i + 1) + end);
    }
  }

  // One segment, and the restart marker after it unless it is the last.
  method DecodeSegment(d: Reader, dec: Decoding, t: Tables, sc: Scan, area: array<int>, mcus: seq<Mcu>, i: nat, last: bool,
                       ghost env: Env, ghost coefs: seq<int>, ghost parts: seq<seq<Byte>>, ghost marker: Byte, ghost after: seq<Byte>)
    returns (ok: bool)
    requires d.AtStart() && |d.lastDcVal| == |sc.comps| && GoodEnv(env) && GoodHuff(t, sc) && HasTables(sc, env, dec)
    requires GoodMcus(sc, mcus, |coefs|) && IsImage(coefs) && area.Length == |coefs| && Distinct(Flat(mcus)) && 0 < marker < 0xFF
    modifies d, area
    ensures |d.lastDcVal| == |sc.comps| && (ok && !last ==> d.AtStart())
    ensures (i < |parts| && (last <==> i == |parts| - 1) && PartOf(env, t, sc, coefs, Flat(mcus), parts[i])
             && d.input[old(d.pos)..] == Joined(parts, i) + ([0xFF, marker] + after)
             && AllReady(t, sc, old(area[..]), coefs, Flat(mcus))) ==>
      ok && area[..] == VisitsEffect(t, sc, old(area[..]), coefs, Flat(mcus))
      && (!last ==> d.input[d.pos..] == Joined(parts, i + 1) + ([0xFF, marker] + after))
  {
    hide Reader.Valid, Reader.AtStart, AtVisits, GoodHuff, GoodScan, GoodEnv, HasTables, PartOf;
    hide VisitsEffect, AllReady, Distinct, Joined, AtEnd, GoodVisits;
    ghost var visits := Flat(mcus);
    ghost var sync := i < |parts| && (last <==> i == |parts| - 1) && PartOf(env, t, sc, coefs, visits, parts[i])
      && d.input[d.pos..] == Joined(parts, i) + ([0xFF, marker] + after) && AllReady(t, sc, area[..], coefs, visits);
    if sync { Opening(d, env, t, sc, coefs, visits, parts, i, marker, after); }
    ok := DecodeMcus(d, dec, t, sc, mcus, area, env, coefs);
    if ok && !last {
      ok := RestartWaiting(d, i % 8);
    }
  }

  lemma PlanFrom(sc: Scan, plan: Plan, i: nat, size: nat)
    requires i < |plan| && GoodPlan(sc, plan, size) && GoodVisits(sc, Flat(Segments(plan)[i..]), size)
    ensures Flat(Segments(plan)[i..]) == Flat(plan[i]) + Flat(Segments(plan)[i + 1..])
    ensures GoodMcus(sc, plan[i], size) && GoodVisits(sc, Flat(plan[i]), size)
    ensures GoodVisits(sc, Flat(Segments(plan)[i + 1..]), size) && GoodVisits(sc, Flat(plan[i]) + Flat(Segments(plan)[i + 1..]), size)
  {
    hide Flat, GoodVisits;
    FlatFrom(Segments(plan), i);
    VisitsParts(sc, Flat(plan[i]), Flat(Segments(plan)[i + 1..]), size);
  }

  // The bytes before `end` are those that the coder makes of the scan, in these parts.
  ghost predicate Arrives(env: Env, t: Tables, sc: Scan, coefs: seq<int>, plan: Plan, input: seq<Byte>, parts: seq<seq<Byte>>, end: seq<Byte>)
    requires GoodEnv(env) && GoodHuff(t, sc) && GoodPlan(sc, plan, |coefs|)
  {
    |parts| == |plan| && PartsOf(env, t, sc, coefs, Segments(plan), parts) && input == Joined(parts, 0) + end
  }

  lemma PartHere(env: Env, t: Tables, sc: Scan, coefs: seq<int>, plan: Plan, input: seq<Byte>, parts: seq<seq<Byte>>, end: seq<Byte>, i: nat)
    requires GoodEnv(env) && GoodHuff(t, sc) && GoodPlan(sc, plan, |coefs|) && i < |plan|
    requires Arrives(env, t, sc, coefs, plan, input, parts, end)
    ensures GoodVisits(sc, Flat(plan[i]), |coefs|) && |parts| == |plan| && PartOf(env, t, sc, coefs, Flat(plan[i]), parts[i])
  {
    hide PartOf, GoodHuff, GoodEnv, GoodVisits, Flat;
    assert Segments(plan)[i] == Flat(plan[i]);
  }

  // The whole scan, whatever the sizes in which its bytes come in.
  method DecodeScanHuff(dec: Decoding, t: Tables, sc: Scan, input: seq<Byte>, arrivals: seq<nat>, area: array<int>, plan: Plan,
                        ghost env: Env, ghost coefs: seq<int>, ghost parts: seq<seq<Byte>>, ghost marker: Byte, ghost after: seq<Byte>)
    returns (ok: bool)
    requires GoodEnv(env) && GoodHuff(t, sc) && HasTables(sc, env, dec) && GoodPlan(sc, plan, |coefs|) && IsImage(coefs)
    requires area.Length == |coefs| && Distinct(Flat(Segments(plan))) && 0 < marker < 0xFF
    modifies area
    ensures GoodVisits(sc, Flat(Segments(plan)), |coefs|)
    ensures Arrives(env, t, sc, coefs, plan, input, parts, [0xFF, marker] + after)
            && AllReady(t, sc, old(area[..]), coefs, Flat(Segments(plan))) ==>
      ok && area[..] == VisitsEffect(t, sc, old(area[..]), coefs, Flat(Segments(plan)))
  {
    hide Reader.Valid, Reader.AtStart, GoodHuff, GoodScan, GoodEnv, HasTables, PartOf, VisitsEffect, AllReady, Distinct, GoodVisits, GoodPlan;
    hide IsImage, Arrives, Flat, GoodMcus, Segments;
    PlanGood(sc, plan, |coefs|);
    ghost var area0, end, n, segs := area[..], [0xFF, marker] + after, |plan|, Segments(plan);
    ghost var sync := Arrives(env, t, sc, coefs, plan, input, parts, end) && AllReady(t, sc, area0, coefs, Flat(segs));
    if sync { Begins(env, t, sc, coefs, plan, input, parts, end); }
    var d := new Reader(input, arrivals, |sc.comps|);
    var i := 0;
    assert input[0..] == input && segs[0..] == segs;
    while true
      invariant 0 <= i < n && fresh(d) && d.input == input && d.AtStart() && |d.lastDcVal| == |sc.comps|
      invariant GoodVisits(sc, Flat(segs[i..]), |coefs|) && Distinct(Flat(segs[i..]))
      invariant sync ==> |parts| == n && input[d.pos..] == Joined(parts, i) + end
      invariant sync ==> AllReady(t, sc, area[..], coefs, Flat(segs[i..]))
      invariant sync ==> VisitsEffect(t, sc, area[..], coefs, Flat(segs[i..])) == VisitsEffect(t, sc, area0, coefs, Flat(segs))
      decreases n - i
    {
      ghost var seg, later := Flat(plan[i]), Flat(segs[i + 1..]);
      PlanFrom(sc, plan, i, |coefs|);
      DistinctParts(seg, later);
      if sync {
        PartHere(env, t, sc, coefs, plan, input, parts, end, i);
        ReadyPrefix(t, sc, area[..], coefs, seg, later);
        ReadyAfter(t, sc, area[..], coefs, seg, later);
        EffectConcat(t, sc, area[..], coefs, seg, later);
      }
      var last := i == |plan| - 1;
      ok := DecodeSegment(d, dec, t, sc, area, plan[i], i, last, env, coefs, parts, marker, after);
      if !ok {
        return;
      }
      if last {
        assert segs[i + 1..] == [];
        NoneLeft(t, sc, area[..], coefs);
        return;
      }
      i := i + 1;
    }
  }

  lemma NoneLeft(t: Tables, sc: Scan, area: seq<int>, coefs: seq<int>)
    requires GoodHuff(t, sc) && |area| == |coefs|
    ensures GoodVisits(sc, Flat([]), |coefs|) && VisitsEffect(t, sc, area, coefs, Flat([])) == area
  {
    EffectNone(t, sc, area, coefs);
  }

  lemma PlanGood(sc: Scan, plan: Plan, size: nat)
    requires GoodPlan(sc, plan, size)
    ensures plan != [] && |Segments(plan)| == |plan| && GoodVisits(sc, Flat(Segments(plan)), size)
  {
    hide GoodVisits, Flat;
    FlatGood(sc, Segments(plan), size);
  }

  lemma Begins(env: Env, t: Tables, sc: Scan, coefs: seq<int>, plan: Plan, input: seq<Byte>, parts: seq<seq<Byte>>, end: seq<Byte>)
    requires GoodEnv(env) && GoodHuff(t, sc) && GoodPlan(sc, plan, |coefs|) && Arrives(env, t, sc, coefs, plan, input, parts, end)
    ensures |parts| == |plan| && plan != [] && input == Joined(parts, 0) + end
  {
  }
}
