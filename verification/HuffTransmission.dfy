// A whole image through all the scans of a script with optimized Huffman coding, and back from bytes that arrive in any portions.
module HuffTransmission {
  import opened Numbers
  import opened ArithModel
  import opened Scans
  import opened ScanScript
  import opened Telescope
  import opened HuffTable
  import opened HuffTokens
  import opened HuffWriter
  import opened HuffMerge
  import opened HuffOptimal
  import opened HuffEobRun
  import opened HuffValues
  import opened HuffAcFirst
  import opened HuffDc
  import opened HuffBlock
  import opened HuffMcu
  import opened HuffDecode
  import opened HuffScan
  import opened HuffDecodeScan
  import opened HuffSymbols
  import opened HuffOptimize
  import Image = Transmission

  type Frame = Image.Frame

  ghost function HuffFrame(f: Frame, size: nat): (yes: bool)
    ensures yes ==> f.Ok(size)
  {
    f.Ok(size) && forall c :: 0 <= c < f.n ==> f.tbls[c].dcTbl < NUM_HUFF_TBLS && f.tbls[c].acTbl < NUM_HUFF_TBLS
  }

  function AllSegments(plans: seq<Plan>): (r: seq<seq<seq<Visit>>>)
    ensures |r| == |plans| && forall i :: 0 <= i < |plans| ==> r[i] == Segments(plans[i])
  {
    seq(|plans|, i requires 0 <= i < |plans| => Segments(plans[i]))
  }

  // Every component of the scan has a block, and an AC scan has one block in an MCU.
  ghost predicate GoodShape(s: ScanInfo, plan: Plan) {
    && plan != [] && (forall ci :: 0 <= ci < |s.comps| ==> HasBlock(Segments(plan), |plan|, ci))
    && (s.ss > 0 ==> forall i, m :: 0 <= i < |plan| && 0 <= m < |plan[i]| ==> |plan[i][m]| == 1)
  }

  ghost function GoodHuffPlans(f: Frame, scans: seq<ScanInfo>, plans: seq<Plan>): (yes: bool)
    requires |f.lay.comp| == |f.lay.isReal|
    ensures yes ==> |plans| == |scans| && Image.GoodPlans(f, scans, AllSegments(plans))
  {
    && |plans| == |scans| && Image.GoodPlans(f, scans, AllSegments(plans))
    && forall i :: 0 <= i < |scans| ==> GoodShape(scans[i], plans[i])
  }

  lemma ScanIsHuff(f: Frame, s: ScanInfo, pos: BitPos, size: nat)
    requires HuffFrame(f, size) && Shaped(f.n, pos) && Carries(f.n, pos, s)
    ensures Image.InRange(f.n, s) && GoodHuff(f.t, Image.ScanFor(f, s)) && |Image.ScanFor(f, s).comps| == |s.comps|
    ensures CodesAc(Image.ScanFor(f, s).mode) <==> s.ss > 0
  {
    Image.ScanForDescribes(f, s, pos, size);
    hide Follows, IsOrder, GoodScan;
    if s.ah != 0 && s.ss == 0 && s.se == 0 { assert Image.ScanFor(f, s).mode == DcRefine; }
  }

  lemma ShapeIsPlan(sc: Scan, s: ScanInfo, plan: Plan, size: nat)
    requires GoodShape(s, plan) && GoodSegments(sc, Segments(plan), size) && (CodesAc(sc.mode) <==> s.ss > 0)
    ensures GoodPlan(sc, plan, size)
  {
    hide GoodVisits, Flat, HasBlock;
    forall i | 0 <= i < |plan|
      ensures GoodMcus(sc, plan[i], size)
    {
      assert Segments(plan)[i] == Flat(plan[i]);
    }
  }

  // Everything the Huffman coder needs of scan i.
  lemma StageFits(f: Frame, scans: seq<ScanInfo>, plans: seq<Plan>, size: nat, i: nat)
    requires HuffFrame(f, size) && LegalScript(f.n, scans) && GoodHuffPlans(f, scans, plans) && i < |scans|
    ensures Image.InRange(f.n, scans[i]) && GoodHuff(f.t, Image.ScanFor(f, scans[i]))
    ensures Describes(Image.ScanFor(f, scans[i]), scans[i]) && Carries(f.n, PosAfter(f.n, scans, i), scans[i])
    ensures GoodPlan(Image.ScanFor(f, scans[i]), plans[i], size)
    ensures GoodVisits(Image.ScanFor(f, scans[i]), Flat(Segments(plans[i])), size) && Distinct(Flat(Segments(plans[i])))
    ensures Covers(f.lay, scans[i], Flat(Segments(plans[i])))
    ensures |Image.ScanFor(f, scans[i]).comps| == |scans[i].comps| && GoodShape(scans[i], plans[i])
  {
    hide LegalScript, Carries, PosAfter, Covers, Distinct, GoodVisits, Image.ScanFor, GoodHuff, GoodShape, GoodSegments, HuffFrame;
    Image.ScanFits(f, scans, AllSegments(plans), size, i);
    LegalCarries(f.n, scans, i);
    ScanIsHuff(f, scans[i], PosAfter(f.n, scans, i), size);
    ShapeIsPlan(Image.ScanFor(f, scans[i]), scans[i], plans[i], size);
    assert AllSegments(plans)[i] == Segments(plans[i]);
  }

  // No coefficient of scan i is out of range.
  ghost predicate StageInRange(f: Frame, scans: seq<ScanInfo>, plans: seq<Plan>, coefs: seq<int>, i: nat)
    requires HuffFrame(f, |coefs|) && LegalScript(f.n, scans) && GoodHuffPlans(f, scans, plans) && i < |scans|
  {
    StageFits(f, scans, plans, |coefs|, i);
    ScanFits(f.t, Image.ScanFor(f, scans[i]), coefs, Segments(plans[i]))
  }

  // All that scan i says.
  ghost function StageTokens(f: Frame, scans: seq<ScanInfo>, plans: seq<Plan>, coefs: seq<int>, i: nat): seq<Token>
    requires HuffFrame(f, |coefs|) && LegalScript(f.n, scans) && GoodHuffPlans(f, scans, plans) && i < |scans|
    requires StageInRange(f, scans, plans, coefs, i)
  {
    StageFits(f, scans, plans, |coefs|, i);
    ScanTokens(f.t, Image.ScanFor(f, scans[i]), coefs, Segments(plans[i]), |plans[i]|)
  }

  // What goes into the file for a scan: the Huffman tables and the entropy-coded bytes.
  datatype Sent = Sent(tbls: seq<JHuffTbl>, bytes: seq<Byte>) {
    predicate Shaped() {
      |tbls| == 2 * NUM_HUFF_TBLS && forall u :: 0 <= u < |tbls| ==> tbls[u].Shaped()
    }
  }

  // The file is what the coder makes of a scan with the tables in it.
  ghost predicate Coded(t: Tables, sc: Scan, coefs: seq<int>, plan: Plan, env: Env, sent: Sent)
    requires GoodHuff(t, sc) && GoodPlan(sc, plan, |coefs|)
  {
    && sent.Shaped() && Usable(sc, sent.tbls) && CoderFor(sc, sent.tbls, env, |sc.comps|)
    && CodesHuff(env, t, sc, coefs, Segments(plan), sent.bytes)
  }

  ghost predicate CarriesScan(f: Frame, scans: seq<ScanInfo>, plans: seq<Plan>, coefs: seq<int>, i: nat, sent: Sent)
    requires HuffFrame(f, |coefs|) && LegalScript(f.n, scans) && GoodHuffPlans(f, scans, plans) && i < |scans|
  {
    StageFits(f, scans, plans, |coefs|, i);
    exists env :: Coded(f.t, Image.ScanFor(f, scans[i]), coefs, plans[i], env, sent)
  }

  // Every token of every segment has a code when all the tokens of the scan have.
  lemma {:induction false} SegmentsCodable(env: Env, t: Tables, sc: Scan, coefs: seq<int>, segments: seq<seq<Visit>>, n: nat)
    requires GoodEnv(env) && GoodHuff(t, sc) && GoodSegments(sc, segments, |coefs|) && ScanFits(t, sc, coefs, segments) && n <= |segments|
    requires Codable(env, ScanTokens(t, sc, coefs, segments, n))
    ensures forall i :: 0 <= i < n ==> Codable(env, SegmentTokens(t, sc, coefs, segments[i]))
  {
    hide GoodEnv, GoodHuff, SegmentTokens, SegmentFits, Codable, GoodVisits;
    if n > 0 {
      CodableConcat(env, ScanTokens(t, sc, coefs, segments, n - 1), SegmentTokens(t, sc, coefs, segments[n - 1]));
      SegmentsCodable(env, t, sc, coefs, segments, n - 1);
    }
  }

  // A statistics pass and the tables that come of it
  method GatherPass(t: Tables, sc: Scan, coefs: seq<int>, segments: seq<seq<Visit>>, tbls: seq<JHuffTbl>)
    returns (ok: bool, made: seq<JHuffTbl>)
    requires GoodHuff(t, sc) && GoodSegments(sc, segments, |coefs|)
    requires forall ci :: 0 <= ci < |sc.comps| ==> HasBlock(segments, |segments|, ci)
    requires |tbls| == 2 * NUM_HUFF_TBLS && forall u :: 0 <= u < |tbls| ==> tbls[u].Shaped()
    requires ScanFits(t, sc, coefs, segments) ==> |ScanTokens(t, sc, coefs, segments, |segments|)| <= LIMIT
    ensures ScanFits(t, sc, coefs, segments) && |ScanTokens(t, sc, coefs, segments, |segments|)| + 1 < LONG_CODE_TOTAL ==> ok
    ensures ok ==>
      && ScanFits(t, sc, coefs, segments)
      && OptimalFor(sc, ScanTokens(t, sc, coefs, segments, |segments|), made, |sc.comps|)
  {
    hide GoodHuff, GoodSegments, SegmentFits, Counted, Tame, OptimalFor, HasBlock, UsesBoth;
    NoTablesGood();
    made := tbls;
    var bytes, counts;
    ok, bytes, counts := EncodeScanHuff(NoTables(), true, t, sc, coefs, segments);
    if ok {
      ghost var ts := ScanTokens(t, sc, coefs, segments, |segments|);
      ScanSymbols(t, sc, coefs, segments, |segments|);
      ok, made := FinishGather(t, sc, counts, tbls, ts);
    }
  }

  // An output pass with the tables of the statistics pass never lacks a code.
  method OutputPass(t: Tables, sc: Scan, coefs: seq<int>, segments: seq<seq<Visit>>, tbls: seq<JHuffTbl>)
    returns (ok: bool, bytes: seq<Byte>, ghost env: Env)
    requires GoodHuff(t, sc) && GoodSegments(sc, segments, |coefs|) && |tbls| == 2 * NUM_HUFF_TBLS && forall u :: 0 <= u < |tbls| ==> tbls[u].Shaped()
    ensures ScanFits(t, sc, coefs, segments) && OptimalFor(sc, ScanTokens(t, sc, coefs, segments, |segments|), tbls, |sc.comps|) ==> ok
    ensures ok ==> Usable(sc, tbls) && CoderFor(sc, tbls, env, |sc.comps|) && CodesHuff(env, t, sc, coefs, segments, bytes)
  {
    hide GoodHuff, GoodSegments, SegmentFits, Tame, OptimalFor, HasBlock, UsesBoth, Usable, CoderFor, CodesHuff, Codable;
    ghost var good := ScanFits(t, sc, coefs, segments) && OptimalFor(sc, ScanTokens(t, sc, coefs, segments, |segments|), tbls, |sc.comps|);
    ghost var ts := if good then ScanTokens(t, sc, coefs, segments, |segments|) else [];
    if good {
      ScanSymbols(t, sc, coefs, segments, |segments|);
      OptimalUsable(t, sc, ts, tbls);
    }
    bytes, env := [], [];
    var derived, counts;
    ok, derived := StartCoder(t, sc, tbls);
    if !ok {
      return;
    }
    env := derived;
    CoderGood(sc, tbls, env);
    if good {
      OptimalCovers(t, sc, ts, tbls, env);
      SegmentsCodable(env, t, sc, coefs, segments, |segments|);
    }
    ok, bytes, counts := EncodeScanHuff(derived, false, t, sc, coefs, segments);
  }

  lemma CoderGood(sc: Scan, tbls: seq<JHuffTbl>, env: Env)
    requires CoderFor(sc, tbls, env, |sc.comps|)
    ensures GoodEnv(env)
  {
  }

  // A DC refinement scan has no symbols.
  lemma NothingToGather(t: Tables, sc: Scan, tbls: seq<JHuffTbl>)
    requires GoodHuff(t, sc) && sc.ss == 0 && sc.ah != 0 && |tbls| == 2 * NUM_HUFF_TBLS && forall u :: 0 <= u < |tbls| ==> tbls[u].Shaped()
    ensures forall ts :: OptimalFor(sc, ts, tbls, |sc.comps|)
  {
    hide HasOptimal;
  }

  // The passes of one scan: statistics unless it is a DC refinement, then output.
  method EncodePasses(t: Tables, sc: Scan, coefs: seq<int>, plan: Plan, tbls: seq<JHuffTbl>)
    returns (ok: bool, sent: Sent, ghost env: Env)
    requires GoodHuff(t, sc) && GoodPlan(sc, plan, |coefs|)
    requires forall ci :: 0 <= ci < |sc.comps| ==> HasBlock(Segments(plan), |plan|, ci)
    requires |tbls| == 2 * NUM_HUFF_TBLS && forall u :: 0 <= u < |tbls| ==> tbls[u].Shaped()
    requires ScanFits(t, sc, coefs, Segments(plan)) ==> |ScanTokens(t, sc, coefs, Segments(plan), |plan|)| <= LIMIT
    ensures ScanFits(t, sc, coefs, Segments(plan)) && |ScanTokens(t, sc, coefs, Segments(plan), |plan|)| + 1 < LONG_CODE_TOTAL ==> ok
    ensures ok ==> ScanFits(t, sc, coefs, Segments(plan)) && Coded(t, sc, coefs, plan, env, sent)
  {
    hide GoodHuff, GoodPlan, GoodSegments, Usable, CoderFor, CodesHuff, HasBlock, ScanFits, OptimalFor;
    var segments := Segments(plan);
    sent, env := Sent(tbls, []), [];
    var made := tbls;
    if sc.ss != 0 || sc.ah == 0 {
      ok, made := GatherPass(t, sc, coefs, segments, tbls);
      if !ok {
        return;
      }
    } else {
      NothingToGather(t, sc, tbls);
    }
    var bytes;
    ok, bytes, env := OutputPass(t, sc, coefs, segments, made);
    sent := Sent(made, bytes);
    if ok {
      CoderGood(sc, made, env);
      WholeFits(env, t, sc, coefs, segments, bytes);
    }
  }

  method EncodeStage(f: Frame, scans: seq<ScanInfo>, plans: seq<Plan>, coefs: seq<int>, i: nat, tbls: seq<JHuffTbl>)
    returns (ok: bool, sent: Sent)
    requires HuffFrame(f, |coefs|) && LegalScript(f.n, scans) && GoodHuffPlans(f, scans, plans) && i < |scans|
    requires |tbls| == 2 * NUM_HUFF_TBLS && forall u :: 0 <= u < |tbls| ==> tbls[u].Shaped()
    requires StageInRange(f, scans, plans, coefs, i) ==> |StageTokens(f, scans, plans, coefs, i)| <= LIMIT
    ensures StageInRange(f, scans, plans, coefs, i) && |StageTokens(f, scans, plans, coefs, i)| + 1 < LONG_CODE_TOTAL ==> ok
    ensures ok ==> StageInRange(f, scans, plans, coefs, i) && CarriesScan(f, scans, plans, coefs, i, sent) && sent.Shaped()
  {
    hide LegalScript, HuffFrame, GoodHuffPlans, GoodHuff, GoodPlan, Coded, HasBlock, ScanFits, Image.ScanFor;
    StageFits(f, scans, plans, |coefs|, i);
    ghost var env;
    ok, sent, env := EncodePasses(f.t, Image.ScanFor(f, scans[i]), coefs, plans[i], tbls);
    if ok { CodedShaped(f.t, Image.ScanFor(f, scans[i]), coefs, plans[i], env, sent); }
  }

  lemma CodedShaped(t: Tables, sc: Scan, coefs: seq<int>, plan: Plan, env: Env, sent: Sent)
    requires GoodHuff(t, sc) && GoodPlan(sc, plan, |coefs|) && Coded(t, sc, coefs, plan, env, sent)
    ensures sent.Shaped()
  {
  }

  lemma PlanSegments(sc: Scan, plan: Plan, size: nat)
    requires GoodPlan(sc, plan, size)
    ensures GoodSegments(sc, Segments(plan), size) && |Segments(plan)| == |plan|
  {
  }

  lemma WholeFits(env: Env, t: Tables, sc: Scan, coefs: seq<int>, segments: seq<seq<Visit>>, bytes: seq<Byte>)
    requires GoodEnv(env) && GoodHuff(t, sc) && GoodSegments(sc, segments, |coefs|) && CodesHuff(env, t, sc, coefs, segments, bytes)
    ensures ScanFits(t, sc, coefs, segments)
  {
    hide SegmentFits, GoodHuff, GoodEnv, GoodVisits;
  }

  ghost predicate Bounded(f: Frame, scans: seq<ScanInfo>, plans: seq<Plan>, coefs: seq<int>, bound: nat)
    requires HuffFrame(f, |coefs|) && LegalScript(f.n, scans) && GoodHuffPlans(f, scans, plans)
  {
    forall i :: 0 <= i < |scans| && StageInRange(f, scans, plans, coefs, i) ==> |StageTokens(f, scans, plans, coefs, i)| < bound
  }

  ghost predicate AllInRange(f: Frame, scans: seq<ScanInfo>, plans: seq<Plan>, coefs: seq<int>)
    requires HuffFrame(f, |coefs|) && LegalScript(f.n, scans) && GoodHuffPlans(f, scans, plans)
  {
    forall i :: 0 <= i < |scans| ==> StageInRange(f, scans, plans, coefs, i)
  }

  // All the scans, each with tables made for it. It fails only on a coefficient out of range, or on a code of more than 32 bits,
  // which takes a scan of millions of symbols.
  method EncodeImage(f: Frame, scans: seq<ScanInfo>, plans: seq<Plan>, coefs: seq<int>, tbls: seq<JHuffTbl>)
    returns (ok: bool, file: seq<Sent>)
    requires HuffFrame(f, |coefs|) && LegalScript(f.n, scans) && GoodHuffPlans(f, scans, plans)
    requires |tbls| == 2 * NUM_HUFF_TBLS && forall u :: 0 <= u < |tbls| ==> tbls[u].Shaped()
    requires Bounded(f, scans, plans, coefs, LIMIT + 1)
    ensures AllInRange(f, scans, plans, coefs) && Bounded(f, scans, plans, coefs, LONG_CODE_TOTAL - 1) ==> ok
    ensures ok ==> AllInRange(f, scans, plans, coefs) && |file| == |scans|
    ensures ok ==> forall i :: 0 <= i < |scans| ==> CarriesScan(f, scans, plans, coefs, i, file[i]) && file[i].Shaped()
  {
    hide LegalScript, GoodHuffPlans, HuffFrame, CarriesScan, StageInRange, StageTokens;
    ok, file := true, [];
    var current := tbls;
    while |file| < |scans|
      invariant |file| <= |scans| && ok
      invariant |current| == 2 * NUM_HUFF_TBLS && forall u :: 0 <= u < |current| ==> current[u].Shaped()
      invariant forall i :: 0 <= i < |file| ==> CarriesScan(f, scans, plans, coefs, i, file[i]) && file[i].Shaped()
      invariant forall i :: 0 <= i < |file| ==> StageInRange(f, scans, plans, coefs, i)
    {
      var sent;
      ok, sent := EncodeStage(f, scans, plans, coefs, |file|, current);
      if !ok {
        return;
      }
      current := sent.tbls;
      file := file + [sent];
    }
  }

  // The parts of a scan that the coder made, and the marker after it.
  lemma Received(t: Tables, sc: Scan, coefs: seq<int>, plan: Plan, env: Env, sent: Sent, input: seq<Byte>)
    returns (parts: seq<seq<Byte>>, marker: Byte, after: seq<Byte>)
    requires GoodHuff(t, sc) && GoodPlan(sc, plan, |coefs|) && Coded(t, sc, coefs, plan, env, sent) && Image.Ended(input, sent.bytes)
    ensures GoodEnv(env) && 0 < marker < 0xFF && Arrives(env, t, sc, coefs, plan, input, parts, [0xFF, marker] + after)
  {
    hide GoodHuff, GoodPlan, PartsOf, Usable, CoderForComp, GoodDerived;
    parts :| |parts| == |Segments(plan)| && PartsOf(env, t, sc, coefs, Segments(plan), parts) && sent.bytes == Scans.Joined(parts, 0);
    marker, after :| 0 < marker < 0xFF && input == sent.bytes + ([0xFF, marker] + after);
  }

  // One scan off the input, into the area: what the coder made of it is read back, however its bytes come in.
  method DecodeStage(f: Frame, scans: seq<ScanInfo>, plans: seq<Plan>, i: nat, sent: Sent, input: seq<Byte>, arrivals: seq<nat>,
                     area: array<int>, ghost coefs: seq<int>)
    returns (ok: bool)
    requires HuffFrame(f, |coefs|) && LegalScript(f.n, scans) && GoodHuffPlans(f, scans, plans) && IsImage(coefs) && i < |scans|
    requires area.Length == |coefs| && sent.Shaped()
    requires CarriesScan(f, scans, plans, coefs, i, sent) && Image.Ended(input, sent.bytes) && Image.Stage(f, scans, i, area[..], coefs)
    modifies area
    ensures ok && Image.Stage(f, scans, i + 1, area[..], coefs)
  {
    hide LegalScript, GoodHuffPlans, HuffFrame, Image.ScanFor, GoodHuff, GoodScan, GoodPlan;
    hide IsImage, AreaIs, GoodVisits, Carries, VisitsEffect, AllReady;
    hide Distinct, Covers, Usable, CoderFor, DecoderFor, Arrives, Image.Frame.Ok, Image.Ended, HasTables, CodesHuff;
    FrameFits(f, |coefs|);
    StageFits(f, scans, plans, |coefs|, i);
    ghost var pos := PosAfter(f.n, scans, i);
    var sc := Image.ScanFor(f, scans[i]);
    ghost var env :| Coded(f.t, sc, coefs, plans[i], env, sent);
    CoderGood(sc, sent.tbls, env);
    ghost var parts, marker, after := Received(f.t, sc, coefs, plans[i], env, sent, input);
    ScanReady(f.t, sc, scans[i], area[..], coefs, f.lay, f.n, pos, Flat(Segments(plans[i])));
    ScanStep(f.t, sc, scans[i], area[..], coefs, f.lay, f.n, pos, Flat(Segments(plans[i])));
    var dec;
    ok, dec := StartDecoder(f.t, sc, sent.tbls);
    SameTables(f.t, sc, env, dec);
    ok := DecodeScanHuff(dec, f.t, sc, input, arrivals, area, plans[i], env, coefs, parts, marker, after);
  }

  lemma FrameFits(f: Frame, size: nat)
    requires HuffFrame(f, size)
    ensures Fits(f.lay, f.n, size) && IsOrder(f.t.order) && |f.tbls| == f.n
  {
  }

  // ----- all the scans -----

  // What was sent arrives, with a marker after each scan.
  ghost predicate Delivered(f: Frame, scans: seq<ScanInfo>, plans: seq<Plan>, coefs: seq<int>, file: seq<Sent>, inputs: seq<seq<Byte>>)
    requires HuffFrame(f, |coefs|) && LegalScript(f.n, scans) && GoodHuffPlans(f, scans, plans)
  {
    |file| == |inputs| == |scans| &&
    forall i :: 0 <= i < |scans| ==>
      CarriesScan(f, scans, plans, coefs, i, file[i]) && file[i].Shaped() && Image.Ended(inputs[i], file[i].bytes)
  }

  method DecodeImage(f: Frame, scans: seq<ScanInfo>, plans: seq<Plan>, file: seq<Sent>, inputs: seq<seq<Byte>>, arrivals: seq<seq<nat>>,
                     area: array<int>, ghost coefs: seq<int>)
    returns (ok: bool)
    requires HuffFrame(f, |coefs|) && LegalScript(f.n, scans) && GoodHuffPlans(f, scans, plans) && IsImage(coefs)
    requires area.Length == |coefs| && |arrivals| == |scans|
    requires Delivered(f, scans, plans, coefs, file, inputs) && Image.Stage(f, scans, 0, area[..], coefs)
    modifies area
    ensures ok && Image.Stage(f, scans, |scans|, area[..], coefs)
  {
    hide LegalScript, GoodHuffPlans, HuffFrame, CarriesScan, IsImage, Image.Stage, Image.Ended;
    ok := true;
    var i := 0;
    while i < |scans|
      invariant 0 <= i <= |scans| && ok && Image.Stage(f, scans, i, area[..], coefs)
    {
      ok := DecodeStage(f, scans, plans, i, file[i], inputs[i], arrivals[i], area, coefs);
      i := i + 1;
    }
  }

  // Coefficients of the range that 8-bit samples lead to
  ghost predicate TenBits(coefs: seq<int>) { forall j :: 0 <= j < |coefs| ==> -0x400 < coefs[j] < 0x400 }

  lemma {:induction false} FewBits(v: nat, n: nat)
    requires v < Pow2(n)
    ensures NumBits(v) <= n
  {
    if v > 0 { FewBits(v / 2, n - 1); }
  }

  lemma ShiftSmall(c: int, al: nat)
    requires -0x400 < c < 0x400
    ensures -0x400 < Shift(c, al) < 0x400
  {
    var p := Pow2(al);
    hide Pow2;
    var q := c / p;
    assert c == q * p + c % p;
    if q <= -0x400 {
      MulLe(0x400, -q, p);
      MulNeg(-q, p);
    } else if q >= 0x400 {
      MulLe(0x400, q, p);
    }
  }

  lemma TenBitRange(block: seq<int>, order: seq<nat>, al: nat, ss: nat, se: nat)
    requires IsOrder(order) && |block| == 64 && se < 64 && TenBits(block)
    ensures InRange(Zigzag(block, order, al), ss, se)
  {
    var w := Zigzag(block, order, al);
    forall i | ss <= i <= se
      ensures NumBits(Abs(w[i])) <= MAX_COEF_BITS
    {
      PointParts(block[order[i]], al);
      assert Pow2(10) == 0x400;
      FewBits(Abs(w[i]), 10);
    }
  }

  lemma TenBitDiff(a: int, b: int)
    requires -0x400 < a < 0x400 && -0x400 < b < 0x400
    ensures DiffInRange(a - b)
  {
    assert Pow2(10) == 0x400;
    assert Pow2(11) == 0x800;
    FewBits(Abs(a - b), 11);
  }

  lemma {:induction false} TenBitsFit(t: Tables, sc: Scan, last: seq<int>, coefs: seq<int>, visits: seq<Visit>)
    requires GoodHuff(t, sc) && |last| == |sc.comps| && GoodVisits(sc, visits, |coefs|) && TenBits(coefs) && TenBits(last)
    ensures AllFits(t, sc, last, coefs, visits)
    decreases |visits|
  {
    if visits != [] {
      var v, b := visits[0], Block(coefs, visits[0].blk);
      ShiftSmall(b[0], sc.al);
      TenBitDiff(Shift(b[0], sc.al), last[v.ci]);
      TenBitRange(b, t.order, 0, 1, sc.se);
      TenBitRange(b, t.order, sc.al, sc.ss, sc.se);
      hide Shift, InRange, DiffInRange, Zigzag, GoodScan;
      TenBitsFit(t, sc, NextLast(sc, last, v.ci, b), coefs, visits[1..]);
    }
  }

  lemma TenBitsInRange(f: Frame, scans: seq<ScanInfo>, plans: seq<Plan>, coefs: seq<int>)
    requires HuffFrame(f, |coefs|) && LegalScript(f.n, scans) && GoodHuffPlans(f, scans, plans) && TenBits(coefs)
    ensures AllInRange(f, scans, plans, coefs)
  {
    hide LegalScript, GoodHuffPlans, HuffFrame, GoodHuff, GoodPlan, Image.ScanFor, AllFits, TenBits, Flat;
    forall i | 0 <= i < |scans|
      ensures StageInRange(f, scans, plans, coefs, i)
    {
      StageFits(f, scans, plans, |coefs|, i);
      var sc, segments := Image.ScanFor(f, scans[i]), Segments(plans[i]);
      PlanSegments(sc, plans[i], |coefs|);
      ZerosSmall(sc);
      forall k | 0 <= k < |segments|
        ensures SegmentFits(f.t, sc, coefs, segments[k])
      {
        TenBitsFit(f.t, sc, FreshLast(sc), coefs, segments[k]);
      }
    }
  }

  lemma ZerosSmall(sc: Scan)
    ensures TenBits(FreshLast(sc))
  {
  }

  lemma AllDelivered(f: Frame, scans: seq<ScanInfo>, plans: seq<Plan>, coefs: seq<int>, file: seq<Sent>, tails: seq<seq<Byte>>, inputs: seq<seq<Byte>>)
    requires HuffFrame(f, |coefs|) && LegalScript(f.n, scans) && GoodHuffPlans(f, scans, plans)
    requires |file| == |tails| == |inputs| == |scans|
    requires forall i :: 0 <= i < |scans| ==>
      CarriesScan(f, scans, plans, coefs, i, file[i]) && file[i].Shaped() && Image.Ended(tails[i], []) && inputs[i] == file[i].bytes + tails[i]
    ensures Delivered(f, scans, plans, coefs, file, inputs)
  {
    hide LegalScript, GoodHuffPlans, HuffFrame, CarriesScan, Image.Ended;
    forall i | 0 <= i < |scans|
      ensures Image.Ended(inputs[i], file[i].bytes)
    {
      Image.EndedBy(file[i].bytes, tails[i]);
    }
  }

  // The coder and the decoder together, for every accepted script: each coefficient arrives as its last scan left it, in whatever
  // portions the bytes come in; a script that sends every bit loses nothing.
  method Transmit(f: Frame, scans: seq<ScanInfo>, plans: seq<Plan>, coefs: seq<int>, tbls: seq<JHuffTbl>, tails: seq<seq<Byte>>, arrivals: seq<seq<nat>>)
    returns (ok: bool, area: array<int>)
    requires HuffFrame(f, |coefs|) && LegalScript(f.n, scans) && GoodHuffPlans(f, scans, plans) && IsImage(coefs)
    requires |tbls| == 2 * NUM_HUFF_TBLS && forall u :: 0 <= u < |tbls| ==> tbls[u].Shaped()
    requires Bounded(f, scans, plans, coefs, LIMIT + 1) && |tails| == |arrivals| == |scans|
    requires forall i :: 0 <= i < |tails| ==> Image.Ended(tails[i], [])
    ensures fresh(area) && area.Length == |coefs|
    ensures TenBits(coefs) && Bounded(f, scans, plans, coefs, LONG_CODE_TOTAL - 1) ==> ok
    ensures ok ==> Image.Stage(f, scans, |scans|, area[..], coefs)
    ensures ok && Image.Complete(f.n, PosAfter(f.n, scans, |scans|)) ==> Image.SameReal(area[..], coefs, f.lay)
  {
    area := new int[|coefs|](_ => 0);
    Image.NothingSent(f, scans, area[..], coefs);
    if TenBits(coefs) { TenBitsInRange(f, scans, plans, coefs); }
    hide *;
    var file;
    ok, file := EncodeImage(f, scans, plans, coefs, tbls);
    if !ok {
      return;
    }
    var inputs := seq(|scans|, i requires 0 <= i < |scans| => file[i].bytes + tails[i]);
    AllDelivered(f, scans, plans, coefs, file, tails, inputs);
    ok := DecodeImage(f, scans, plans, file, inputs, arrivals, area, coefs);
    if Image.Complete(f.n, PosAfter(f.n, scans, |scans|)) {
      Image.StageLossless(f, scans, area[..], coefs);
    }
  }
}
