// A whole image through all the scans of a script and back.
module Transmission {
  import opened Numbers
  import opened ArithModel
  import opened ArithDecodeMcu
  import opened ArithScan
  import opened Scans
  import opened ScanScript
  import opened SimpleProgression
  import opened Telescope

  // What stays fixed over the scans: the component count, the coding tables, each component's table numbers.
  datatype Frame = Frame(n: nat, t: Tables, tbls: seq<Comp>, lay: Layout) {
    ghost predicate Ok(size: nat) {
      && |tbls| == n && (forall c :: 0 <= c < n ==> tbls[c].dcTbl < NUM_ARITH_TBLS && tbls[c].acTbl < NUM_ARITH_TBLS)
      && IsOrder(t.order) && |t.dcL| == |t.dcU| == |t.acK| == NUM_ARITH_TBLS
      && Fits(lay, n, size)
    }
  }

  function InRange(n: nat, s: ScanInfo): bool {
    (forall i :: 0 <= i < |s.comps| ==> 0 <= s.comps[i] < n) && 0 <= s.ss && 0 <= s.se && 0 <= s.ah && 0 <= s.al
  }

  // select_scan_parameters, and the routine selection of the entropy coder's start_pass.
  function ScanFor(f: Frame, s: ScanInfo): Scan
    requires |f.tbls| == f.n && InRange(f.n, s)
  {
    Scan(SelectMode(!(s.ss == 0 && s.se == 63), s.ss, s.ah),
         seq(|s.comps|, i requires 0 <= i < |s.comps| => f.tbls[s.comps[i]]), s.ss, s.se, s.ah, s.al)
  }

  lemma ScanForDescribes(f: Frame, s: ScanInfo, pos: BitPos, size: nat)
    requires f.Ok(size) && Shaped(f.n, pos) && Carries(f.n, pos, s)
    ensures InRange(f.n, s) && Describes(ScanFor(f, s), s) && GoodScan(f.t, ScanFor(f, s))
  {
    if s.ss > 0 && s.ah != 0 {
      assert Follows(pos[s.comps[0]], s);
      var last := pos[s.comps[0]][s.ss];
      assert if last < 0 then s.ah == 0 else s.ah == last && s.al == s.ah - 1;
    }
  }

  // How each scan of the script visits the blocks: segments between restart markers.
  type Plan = seq<seq<Visit>>

  ghost predicate GoodPlans(f: Frame, scans: seq<ScanInfo>, plans: seq<Plan>)
    requires |f.lay.comp| == |f.lay.isReal|
  {
    |plans| == |scans| &&
    forall i :: 0 <= i < |scans| ==>
      plans[i] != [] && Distinct(Flat(plans[i])) && Covers(f.lay, scans[i], Flat(plans[i]))
  }

  lemma {:induction false} SegmentsGood(sc: Scan, plan: Plan, size: nat)
    requires GoodVisits(sc, Flat(plan), size)
    ensures forall i :: 0 <= i < |plan| ==> GoodVisits(sc, plan[i], size)
  {
    if plan != [] {
      var a, b := plan[0], Flat(plan[1..]);
      assert forall k :: 0 <= k < |a| ==> (a + b)[k] == a[k];
      assert forall k :: 0 <= k < |b| ==> (a + b)[|a| + k] == b[k];
      SegmentsGood(sc, plan[1..], size);
      assert forall i :: 1 <= i < |plan| ==> plan[i] == plan[1..][i - 1];
    }
  }

  // Everything the entropy coder needs of scan i.
  lemma ScanFits(f: Frame, scans: seq<ScanInfo>, plans: seq<Plan>, size: nat, i: nat)
    requires f.Ok(size) && LegalScript(f.n, scans) && GoodPlans(f, scans, plans) && i < |scans|
    ensures InRange(f.n, scans[i]) && Describes(ScanFor(f, scans[i]), scans[i]) && GoodScan(f.t, ScanFor(f, scans[i]))
    ensures GoodVisits(ScanFor(f, scans[i]), Flat(plans[i]), size) && GoodSegments(ScanFor(f, scans[i]), plans[i], size)
  {
    hide LegalScript, Carries, PosAfter, Covers, Distinct, GoodVisits, ScanFor, GoodScan;
    LegalCarries(f.n, scans, i);
    ScanForDescribes(f, scans[i], PosAfter(f.n, scans, i), size);
    var sc := ScanFor(f, scans[i]);
    CoversVisits(f.lay, sc, scans[i], f.n, size, Flat(plans[i]));
    SegmentsGood(sc, plans[i], size);
  }

  // The file is what the entropy coder makes of scan i.
  ghost predicate CarriesScan(f: Frame, scans: seq<ScanInfo>, plans: seq<Plan>, coefs: seq<int>, i: nat, file: seq<Byte>)
    requires f.Ok(|coefs|) && LegalScript(f.n, scans) && GoodPlans(f, scans, plans) && i < |scans|
  {
    ScanFits(f, scans, plans, |coefs|, i);
    Codes(f.t, ScanFor(f, scans[i]), coefs, plans[i], file)
  }

  // Every DC difference of scan i is one the decoder can follow.
  ghost predicate FitsScan(f: Frame, scans: seq<ScanInfo>, plans: seq<Plan>, coefs: seq<int>, i: nat)
    requires f.Ok(|coefs|) && LegalScript(f.n, scans) && GoodPlans(f, scans, plans) && i < |scans|
  {
    ScanFits(f, scans, plans, |coefs|, i);
    AllFit(f.t, ScanFor(f, scans[i]), coefs, plans[i])
  }

  method EncodeStage(f: Frame, scans: seq<ScanInfo>, plans: seq<Plan>, coefs: seq<int>, i: nat) returns (file: seq<Byte>)
    requires f.Ok(|coefs|) && LegalScript(f.n, scans) && GoodPlans(f, scans, plans) && IsImage(coefs) && i < |scans|
    ensures CarriesScan(f, scans, plans, coefs, i, file)
  {
    hide LegalScript, ScanFor, GoodScan, GoodSegments, IsImage;
    ScanFits(f, scans, plans, |coefs|, i);
    file := EncodeScan(f.t, ScanFor(f, scans[i]), coefs, plans[i]);
  }

  // One encoded scan after another, each in its own byte sequence.
  method EncodeImage(f: Frame, scans: seq<ScanInfo>, plans: seq<Plan>, coefs: seq<int>) returns (files: seq<seq<Byte>>)
    requires f.Ok(|coefs|) && LegalScript(f.n, scans) && GoodPlans(f, scans, plans) && IsImage(coefs)
    ensures |files| == |scans|
    ensures forall i :: 0 <= i < |scans| ==> CarriesScan(f, scans, plans, coefs, i, files[i])
  {
    hide LegalScript, GoodPlans, Frame.Ok, CarriesScan, IsImage;
    files := [];
    while |files| < |scans|
      invariant |files| <= |scans|
      invariant forall i :: 0 <= i < |files| ==> CarriesScan(f, scans, plans, coefs, i, files[i])
    {
      var file := EncodeStage(f, scans, plans, coefs, |files|);
      files := files + [file];
    }
  }

  // The bytes of a scan and the marker that ends it, of a header or of the end of the image.
  ghost predicate Ended(input: seq<Byte>, file: seq<Byte>) {
    exists marker: Byte, after :: 0 < marker < 0xFF && input == file + ([0xFF, marker] + after)
  }

  lemma NothingSent(f: Frame, scans: seq<ScanInfo>, area: seq<int>, coefs: seq<int>)
    requires f.Ok(|coefs|) && |area| == |coefs| && forall j :: 0 <= j < |area| ==> area[j] == 0
    ensures Stage(f, scans, 0, area, coefs)
  {
  }

  // The area after the first i scans: each coefficient as far as its last scan sent it.
  ghost predicate Stage(f: Frame, scans: seq<ScanInfo>, i: nat, area: seq<int>, coefs: seq<int>)
    requires f.Ok(|coefs|) && |area| == |coefs| && i <= |scans|
  {
    AreaIs(area, coefs, f.lay, f.t.order, f.n, PosAfter(f.n, scans, i))
  }

  // One scan off the input, into the area.
  method DecodeStage(f: Frame, scans: seq<ScanInfo>, plans: seq<Plan>, i: nat, input: seq<Byte>, area: array<int>,
                     ghost coefs: seq<int>, ghost file: seq<Byte>)
    returns (status: Status)
    requires f.Ok(|coefs|) && LegalScript(f.n, scans) && GoodPlans(f, scans, plans) && IsImage(coefs) && i < |scans|
    requires area.Length == |coefs|
    modifies area
    ensures (CarriesScan(f, scans, plans, coefs, i, file) && Ended(input, file)
             && Stage(f, scans, i, old(area[..]), coefs)) ==>
      status != Dry && (status == Done <==> FitsScan(f, scans, plans, coefs, i))
      && (status == Done ==> Stage(f, scans, i + 1, area[..], coefs))
  {
    hide LegalScript, ScanFor, GoodScan, GoodSegments, CodedBy, IsImage, AreaIs, GoodVisits, Carries, AllFit, VisitsEffect, AllReady, Distinct, Covers;
    ScanFits(f, scans, plans, |coefs|, i);
    LegalCarries(f.n, scans, i);
    ghost var pos := PosAfter(f.n, scans, i);
    ghost var sync := CarriesScan(f, scans, plans, coefs, i, file) && Ended(input, file)
             && Stage(f, scans, i, area[..], coefs);
    ghost var parts: seq<seq<Byte>>, marker: Byte, after: seq<Byte> := [], 1, [];
    if sync {
      parts :| |parts| == |plans[i]| && CodedBy(f.t, ScanFor(f, scans[i]), coefs, plans[i], parts) && file == Joined(parts, 0);
      marker, after :| 0 < marker < 0xFF && input == file + ([0xFF, marker] + after);
      ScanReady(f.t, ScanFor(f, scans[i]), scans[i], area[..], coefs, f.lay, f.n, pos, Flat(plans[i]));
      ScanStep(f.t, ScanFor(f, scans[i]), scans[i], area[..], coefs, f.lay, f.n, pos, Flat(plans[i]));
    }
    status := DecodeScan(f.t, ScanFor(f, scans[i]), input, area, plans[i], coefs, parts, marker, after);
  }

  // Every input is the file of its scan and the marker that ends it.
  ghost predicate Received(f: Frame, scans: seq<ScanInfo>, plans: seq<Plan>, coefs: seq<int>, files: seq<seq<Byte>>, inputs: seq<seq<Byte>>)
    requires f.Ok(|coefs|) && LegalScript(f.n, scans) && GoodPlans(f, scans, plans) && |inputs| == |files| == |scans|
  {
    forall i :: 0 <= i < |scans| ==> CarriesScan(f, scans, plans, coefs, i, files[i]) && Ended(inputs[i], files[i])
  }

  ghost predicate FitsUpTo(f: Frame, scans: seq<ScanInfo>, plans: seq<Plan>, coefs: seq<int>, m: nat)
    requires f.Ok(|coefs|) && LegalScript(f.n, scans) && GoodPlans(f, scans, plans) && m <= |scans|
  {
    forall i :: 0 <= i < m ==> FitsScan(f, scans, plans, coefs, i)
  }

  // All the scans in order, each ended by the next header or the end of the image: the coefficients come back
  // exactly as far as the script sends them, and decoding stops exactly at a DC difference beyond 2^15.
  method DecodeImage(f: Frame, scans: seq<ScanInfo>, plans: seq<Plan>, inputs: seq<seq<Byte>>, area: array<int>,
                     ghost coefs: seq<int>, ghost files: seq<seq<Byte>>)
    returns (status: Status)
    requires f.Ok(|coefs|) && LegalScript(f.n, scans) && GoodPlans(f, scans, plans) && IsImage(coefs)
    requires area.Length == |coefs| && |inputs| == |files| == |scans| && Stage(f, scans, 0, area[..], coefs)
    modifies area
    ensures Received(f, scans, plans, coefs, files, inputs) ==>
      status != Dry
      && (status == Done <==> FitsUpTo(f, scans, plans, coefs, |scans|))
      && (status == Done ==> Stage(f, scans, |scans|, area[..], coefs))
  {
    hide LegalScript, GoodPlans, CarriesScan, FitsScan, Ended, IsImage, Stage, Frame.Ok;
    status := Done;
    var i := 0;
    while i < |scans|
      invariant 0 <= i <= |scans| && status == Done
      invariant Received(f, scans, plans, coefs, files, inputs) ==>
        Stage(f, scans, i, area[..], coefs) && FitsUpTo(f, scans, plans, coefs, i)
    {
      status := DecodeStage(f, scans, plans, i, inputs[i], area, coefs, files[i]);
      if status != Done {
        return;
      }
      i := i + 1;
    }
  }

  lemma SmallScan(f: Frame, scans: seq<ScanInfo>, plans: seq<Plan>, coefs: seq<int>, i: nat)
    requires f.Ok(|coefs|) && LegalScript(f.n, scans) && GoodPlans(f, scans, plans) && i < |scans|
    requires forall j :: 0 <= j < |coefs| ==> -0x4000 <= coefs[j] < 0x4000
    ensures FitsScan(f, scans, plans, coefs, i)
  {
    hide LegalScript, ScanFor, GoodScan, GoodVisits, DiffsFit;
    ScanFits(f, scans, plans, |coefs|, i);
    var sc := ScanFor(f, scans[i]);
    forall k | 0 <= k < |plans[i]|
      ensures DiffsFit(f.t, sc, FreshDc(|sc.comps|), coefs, plans[i][k])
    {
      SmallFits(f.t, sc, FreshDc(|sc.comps|), coefs, plans[i][k]);
    }
  }

  // ----- when every position is at 0, nothing is lost -----

  ghost predicate Complete(n: nat, pos: BitPos)
    requires Shaped(n, pos)
  {
    forall c, k :: 0 <= c < n && 0 <= k < 64 ==> pos[c][k] == 0
  }

  // The real blocks are exactly the original ones.
  ghost predicate SameReal(area: seq<int>, coefs: seq<int>, lay: Layout)
    requires |area| == |coefs| == 64 * |lay.comp| && |lay.comp| == |lay.isReal|
  {
    forall b :: 0 <= b < |lay.comp| && lay.isReal[b] ==> Block(area, b) == Block(coefs, b)
  }

  lemma KeptWhole(c: int, k: nat)
    ensures Kept(c, k, 0) == c
  {
  }

  // A script that sends every bit of every coefficient loses nothing.
  lemma Lossless(f: Frame, area: seq<int>, coefs: seq<int>, pos: BitPos)
    requires f.Ok(|coefs|) && |area| == |coefs| && Shaped(f.n, pos) && Complete(f.n, pos)
    requires AreaIs(area, coefs, f.lay, f.t.order, f.n, pos)
    ensures SameReal(area, coefs, f.lay)
  {
    hide Kept, IsOrder;
    forall b | 0 <= b < |f.lay.comp| && f.lay.isReal[b]
      ensures Block(area, b) == Block(coefs, b)
    {
      var held, block := Block(area, b), Block(coefs, b);
      assert HeldAt(area, coefs, f.lay, f.t.order, f.n, pos, b);
      forall j | 0 <= j < 64
        ensures held[j] == block[j]
      {
        var k := OrderOnto(f.t.order, j);
        KeptWhole(block[j], k);
      }
    }
  }

  // jpeg_simple_progression is lossless: coded with its script, an image of any number of components comes back whole.
  lemma SimpleProgressionComplete(n: nat, ycc: bool)
    requires n >= 1
    ensures LegalScript(n, Script(n, ycc)) && Complete(n, PosAfter(n, Script(n, ycc), |Script(n, ycc)|))
  {
    hide LegalProgressive, LegalSequential, Script, PosAfter, IsProgressive;
    ScriptLegal(n, ycc);
  }

  // A sequential script sends everything, too.
  lemma SequentialComplete(n: nat, scans: seq<ScanInfo>)
    requires LegalScript(n, scans) && !IsProgressive(scans)
    ensures Complete(n, PosAfter(n, scans, |scans|))
  {
    forall c, k | 0 <= c < n && 0 <= k < 64
      ensures PosAfter(n, scans, |scans|)[c][k] == 0
    {
      SequentialPos(n, scans, |scans|, c);
    }
  }

  // Where the lossless scripts end, nothing was lost.
  lemma StageLossless(f: Frame, scans: seq<ScanInfo>, area: seq<int>, coefs: seq<int>)
    requires f.Ok(|coefs|) && |area| == |coefs| && Stage(f, scans, |scans|, area, coefs)
    requires Complete(f.n, PosAfter(f.n, scans, |scans|))
    ensures SameReal(area, coefs, f.lay)
  {
    hide Complete, PosAfter, SameReal, IsOrder;
    Lossless(f, area, coefs, PosAfter(f.n, scans, |scans|));
  }

  function Delivered(files: seq<seq<Byte>>, tails: seq<seq<Byte>>): (inputs: seq<seq<Byte>>)
    requires |files| == |tails|
    ensures |inputs| == |files| && forall i :: 0 <= i < |files| ==> inputs[i] == files[i] + tails[i]
  {
    seq(|files|, i requires 0 <= i < |files| => files[i] + tails[i])
  }

  lemma SmallIsImage(f: Frame, coefs: seq<int>)
    requires f.Ok(|coefs|) && forall j :: 0 <= j < |coefs| ==> -0x4000 <= coefs[j] < 0x4000
    ensures IsImage(coefs)
  {
  }

  // The coder and the decoder together, for coefficients of up to 15 bits: each one arrives as its last scan left it.
  method Transmit(f: Frame, scans: seq<ScanInfo>, plans: seq<Plan>, coefs: seq<int>, tails: seq<seq<Byte>>)
    returns (status: Status, area: array<int>)
    requires f.Ok(|coefs|) && LegalScript(f.n, scans) && GoodPlans(f, scans, plans) && |tails| == |scans|
    requires forall j :: 0 <= j < |coefs| ==> -0x4000 <= coefs[j] < 0x4000
    requires forall i :: 0 <= i < |tails| ==> Ended(tails[i], [])
    ensures fresh(area) && area.Length == |coefs|
    ensures status == Done && Stage(f, scans, |scans|, area[..], coefs)
    ensures Complete(f.n, PosAfter(f.n, scans, |scans|)) ==> SameReal(area[..], coefs, f.lay)
  {
    hide *;
    area := new int[|coefs|](_ => 0);
    SmallIsImage(f, coefs);
    NothingSent(f, scans, area[..], coefs);
    var files := EncodeImage(f, scans, plans, coefs);
    var inputs := Delivered(files, tails);
    AllReceived(f, scans, plans, coefs, files, tails, inputs);
    status := DecodeImage(f, scans, plans, inputs, area, coefs, files);
    if Complete(f.n, PosAfter(f.n, scans, |scans|)) {
      StageLossless(f, scans, area[..], coefs);
    }
  }

  lemma AllReceived(f: Frame, scans: seq<ScanInfo>, plans: seq<Plan>, coefs: seq<int>, files: seq<seq<Byte>>,
                    tails: seq<seq<Byte>>, inputs: seq<seq<Byte>>)
    requires f.Ok(|coefs|) && LegalScript(f.n, scans) && GoodPlans(f, scans, plans)
    requires forall j :: 0 <= j < |coefs| ==> -0x4000 <= coefs[j] < 0x4000
    requires |tails| == |files| == |inputs| == |scans|
    requires forall i :: 0 <= i < |scans| ==>
      CarriesScan(f, scans, plans, coefs, i, files[i]) && Ended(tails[i], []) && inputs[i] == files[i] + tails[i]
    ensures Received(f, scans, plans, coefs, files, inputs) && FitsUpTo(f, scans, plans, coefs, |scans|)
  {
    hide LegalScript, GoodPlans, CarriesScan, FitsScan, Ended, Frame.Ok;
    forall i | 0 <= i < |scans|
      ensures Ended(inputs[i], files[i]) && FitsScan(f, scans, plans, coefs, i)
    {
      EndedBy(files[i], tails[i]);
      SmallScan(f, scans, plans, coefs, i);
    }
  }

  lemma EndedBy(file: seq<Byte>, tail: seq<Byte>)
    requires Ended(tail, [])
    ensures Ended(file + tail, file)
  {
    var marker: Byte, after :| 0 < marker < 0xFF && tail == [] + ([0xFF, marker] + after);
    assert file + tail == file + ([0xFF, marker] + after);
  }
}
