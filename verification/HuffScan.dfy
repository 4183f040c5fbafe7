// Whole Huffman-coded scans: the blocks of every segment, restarts, the statistics pass and the output pass.
module HuffScan {
  import opened Numbers
  import opened Scans
  import opened HuffTokens
  import opened HuffWriter
  import opened HuffEobRun
  import opened HuffValues
  import opened HuffAcFirst
  import opened HuffBlock

  // At the end of a segment only a run can be left.
  lemma NothingToCome(t: Tables, sc: Scan, last: seq<int>, e: nat, bits: seq<Bit>, coefs: seq<int>)
    requires GoodHuff(t, sc) && |last| == |sc.comps| && e < MAX_EOBRUN && (e == 0 ==> bits == []) && (!CodesAc(sc.mode) ==> e == 0)
    ensures GoodVisits(sc, [], |coefs|) && AllFits(t, sc, last, coefs, [])
    ensures |sc.comps| == 1 ==> TheTable(sc) < 2 * NUM_HUFF_TBLS
    ensures ToCome(t, sc, last, e, bits, coefs, []) == Eob(if |sc.comps| == 1 then TheTable(sc) else 0, e, bits)
  {
    hide GoodScan, Full, EobSymbol;
    if CodesAc(sc.mode) {
      assert Bands(t, sc, last, coefs, []) == [];
      if e > 0 { assert Eob(TheTable(sc), e, bits) + [] == Eob(TheTable(sc), e, bits); }
    }
  }

  // The blocks of a segment, and the run that is left at its end.
  method EncodeSegment(w: Writer, t: Tables, sc: Scan, coefs: seq<int>, visits: seq<Visit>) returns (ok: bool)
    requires w.Valid() && GoodHuff(t, sc) && AtRest(w, sc, []) && w.eobrun == 0 && GoodVisits(sc, visits, |coefs|)
    modifies w`putBuffer, w`putBits, w`out, w`code, w`pending, w`log, w`counts, w`lastDcVal, w`eobrun, w`be, w.bitBuffer
    ensures GoodEnv(w.env)
    ensures AllFits(t, sc, old(w.lastDcVal), coefs, visits) ==>
      (ok <==> w.gather || Codable(w.env, ToCome(t, sc, old(w.lastDcVal), 0, [], coefs, visits)))
    ensures ok ==>
      && AllFits(t, sc, old(w.lastDcVal), coefs, visits) && w.Valid() && |w.lastDcVal| == |sc.comps| && w.eobrun == w.be == 0
      && w.log == old(w.log) + ToCome(t, sc, old(w.lastDcVal), 0, [], coefs, visits)
  {
    hide Writer.Valid, Codable, GoodEnv, GoodHuff, ToCome, BlockFits, StepTokens, StepRun, NextLast, Full;
    EnvOf(w);
    ghost var last0, log0, done, bits := w.lastDcVal, w.log, [], [];
    ghost var fits := AllFits(t, sc, last0, coefs, visits);
    ghost var all := if fits then ToCome(t, sc, last0, 0, [], coefs, visits) else [];
    var i := 0;
    assert visits[0..] == visits;
    while i < |visits|
      invariant 0 <= i <= |visits| && w.Valid() && AtRest(w, sc, bits) && w.log == log0 + done
      invariant GoodVisits(sc, visits[i..], |coefs|)
      invariant fits <==> AllFits(t, sc, w.lastDcVal, coefs, visits[i..])
      invariant fits ==> all == done + ToCome(t, sc, w.lastDcVal, w.eobrun, bits, coefs, visits[i..])
    {
      ghost var left, last, e := visits[i..], w.lastDcVal, w.eobrun;
      assert left[0] == visits[i] && left[1..] == visits[i + 1..];
      ghost var step: seq<Token> := [];
      ghost var block := Block(coefs, visits[i].blk);
      if fits {
        StepAhead(t, sc, last, e, bits, coefs, left);
        step := StepTokens(t, sc, last, e, bits, visits[i].ci, block);
        ghost var rest := ToCome(t, sc, NextLast(sc, last, visits[i].ci, block), StepRun(t, sc, last, e, bits, visits[i].ci, block).0,
                                 StepRun(t, sc, last, e, bits, visits[i].ci, block).1, coefs, left[1..]);
        Ungrouped(done, step, rest);
        CodableConcat(w.env, done + step, rest);
        CodableConcat(w.env, done, step);
      }
      ok := EncodeBlock(w, t, sc, visits[i].ci, Block(coefs, visits[i].blk), bits);
      if !ok {
        return;
      }
      Ungrouped(log0, done, StepTokens(t, sc, last, e, bits, visits[i].ci, block));
      done := done + StepTokens(t, sc, last, e, bits, visits[i].ci, block);
      bits := StepRun(t, sc, last, e, bits, visits[i].ci, block).1;
      i := i + 1;
    }
    assert visits[i..] == [];
    ok := EndSegment(w, t, sc, coefs, bits, log0, done);
  }

  // What the end of a scan sends.
  method EndSegment(w: Writer, t: Tables, sc: Scan, ghost coefs: seq<int>, ghost bits: seq<Bit>, ghost log0: seq<Token>, ghost done: seq<Token>)
    returns (ok: bool)
    requires w.Valid() && GoodHuff(t, sc) && AtRest(w, sc, bits) && w.log == log0 + done
    modifies w`putBuffer, w`putBits, w`out, w`code, w`pending, w`log, w`counts, w`eobrun, w`be
    ensures GoodEnv(w.env) && GoodVisits(sc, [], |coefs|) && AllFits(t, sc, w.lastDcVal, coefs, [])
    ensures var rest := ToCome(t, sc, w.lastDcVal, old(w.eobrun), bits, coefs, []);
      && (ok <==> w.gather || Codable(w.env, done + rest))
      && (ok ==> w.Valid() && w.eobrun == w.be == 0 && w.log == log0 + (done + rest))
  {
    hide Writer.Valid, Codable, GoodEnv, GoodHuff, ToCome, Full, Eob;
    EnvOf(w);
    ghost var tbl := if |sc.comps| == 1 then TheTable(sc) else 0;
    ghost var eob := Eob(tbl, w.eobrun, bits);
    AtRestQuiet(w, t, sc, bits);
    NothingToCome(t, sc, w.lastDcVal, w.eobrun, bits, coefs);
    LogCodable(w, log0, done);
    CodableConcat(w.env, done, eob);
    Ungrouped(log0, done, eob);
    ok := EmitEobrun(w, if |sc.comps| == 1 then AcTable(sc.comps[0].acTbl) else 0, bits);
  }

  lemma AtRestQuiet(w: Writer, t: Tables, sc: Scan, bits: seq<Bit>)
    requires GoodHuff(t, sc) && AtRest(w, sc, bits)
    ensures (w.eobrun == 0 ==> bits == []) && (!CodesAc(sc.mode) ==> w.eobrun == 0)
  {
    hide GoodHuff;
  }

  // ----- scans -----

  // No coefficient of the scan is out of range.
  ghost predicate ScanFits(t: Tables, sc: Scan, coefs: seq<int>, segments: seq<seq<Visit>>)
    requires GoodHuff(t, sc) && GoodSegments(sc, segments, |coefs|)
  {
    forall i :: 0 <= i < |segments| ==> SegmentFits(t, sc, coefs, segments[i])
  }

  // The tokens of the first n segments.
  ghost function ScanTokens(t: Tables, sc: Scan, coefs: seq<int>, segments: seq<seq<Visit>>, n: nat): seq<Token>
    requires GoodHuff(t, sc) && GoodSegments(sc, segments, |coefs|) && n <= |segments|
    requires forall i :: 0 <= i < n ==> SegmentFits(t, sc, coefs, segments[i])
  {
    if n == 0 then [] else ScanTokens(t, sc, coefs, segments, n - 1) + SegmentTokens(t, sc, coefs, segments[n - 1])
  }

  // parts are the bytes of the segments.
  ghost predicate PartsOf(env: Env, t: Tables, sc: Scan, coefs: seq<int>, segments: seq<seq<Visit>>, parts: seq<seq<Byte>>)
    requires GoodEnv(env) && GoodHuff(t, sc) && GoodSegments(sc, segments, |coefs|)
  {
    |parts| <= |segments| && forall i :: 0 <= i < |parts| ==> PartOf(env, t, sc, coefs, segments[i], parts[i])
  }

  ghost predicate PartOf(env: Env, t: Tables, sc: Scan, coefs: seq<int>, visits: seq<Visit>, part: seq<Byte>)
    requires GoodEnv(env) && GoodHuff(t, sc) && GoodVisits(sc, visits, |coefs|)
  {
    SegmentFits(t, sc, coefs, visits) && HuffSegment(env, part, SegmentTokens(t, sc, coefs, visits))
  }

  // The bytes are those of a coded scan.
  ghost predicate CodesHuff(env: Env, t: Tables, sc: Scan, coefs: seq<int>, segments: seq<seq<Visit>>, bytes: seq<Byte>)
    requires GoodEnv(env) && GoodHuff(t, sc) && GoodSegments(sc, segments, |coefs|)
  {
    exists parts :: |parts| == |segments| && PartsOf(env, t, sc, coefs, segments, parts) && bytes == Joined(parts, 0)
  }

  // Every symbol of the scan has a code.
  ghost predicate ScanCodable(env: Env, t: Tables, sc: Scan, coefs: seq<int>, segments: seq<seq<Visit>>)
    requires GoodEnv(env) && GoodHuff(t, sc) && GoodSegments(sc, segments, |coefs|) && ScanFits(t, sc, coefs, segments)
  {
    forall i :: 0 <= i < |segments| ==> Codable(env, SegmentTokens(t, sc, coefs, segments[i]))
  }

  lemma AtStartRests(w: Writer, sc: Scan)
    requires w.AtStart() && |w.lastDcVal| == |sc.comps|
    ensures w.Valid() && AtRest(w, sc, []) && w.eobrun == 0 && w.log == [] && w.lastDcVal == FreshLast(sc) && w.before == w.out
  {
    hide Writer.Valid;
  }

  // One segment from its start.
  method EncodeStart(w: Writer, t: Tables, sc: Scan, coefs: seq<int>, visits: seq<Visit>) returns (ok: bool)
    requires w.AtStart() && |w.lastDcVal| == |sc.comps| && GoodHuff(t, sc) && GoodVisits(sc, visits, |coefs|)
    modifies w`putBuffer, w`putBits, w`out, w`code, w`pending, w`log, w`counts, w`lastDcVal, w`eobrun, w`be, w.bitBuffer
    ensures GoodEnv(w.env)
    ensures SegmentFits(t, sc, coefs, visits) ==> (ok <==> w.gather || Codable(w.env, SegmentTokens(t, sc, coefs, visits)))
    ensures ok ==>
      && SegmentFits(t, sc, coefs, visits) && w.Valid() && |w.lastDcVal| == |sc.comps| && w.eobrun == w.be == 0
      && w.log == SegmentTokens(t, sc, coefs, visits)
  {
    hide Writer.Valid, Codable, GoodEnv, GoodHuff, AllFits, AtRest, ToCome, Writer.AtStart;
    EnvOf2(w);
    AtStartRests(w, sc);
    ok := EncodeSegment(w, t, sc, coefs, visits);
    if ok { assert [] + SegmentTokens(t, sc, coefs, visits) == SegmentTokens(t, sc, coefs, visits); }
  }

  lemma EnvOf2(w: Writer)
    requires w.AtStart()
    ensures w.Valid() && GoodEnv(w.env) && w.bitBuffer.Length == MAX_CORR_BITS
  {
    EnvOf(w);
  }

  // The first n segments are done, and the writer is at the start of the next.
  ghost predicate Progress(w: Writer, t: Tables, sc: Scan, coefs: seq<int>, segments: seq<seq<Visit>>, parts: seq<seq<Byte>>, n: nat)
    requires GoodHuff(t, sc) && GoodSegments(sc, segments, |coefs|) && GoodEnv(w.env)
    reads w, w.bitBuffer
  {
    && w.AtStart() && |w.lastDcVal| == |sc.comps| && n <= |segments|
    && (forall i :: 0 <= i < n ==> SegmentFits(t, sc, coefs, segments[i]))
    && w.history == ScanTokens(t, sc, coefs, segments, n)
    && if w.gather then w.out == [] else |parts| == n && PartsOf(w.env, t, sc, coefs, segments, parts) && w.out == Lead(parts, n)
  }

  // One more part.
  lemma PartsGrow(env: Env, t: Tables, sc: Scan, coefs: seq<int>, segments: seq<seq<Visit>>, parts: seq<seq<Byte>>, part: seq<Byte>)
    requires GoodEnv(env) && GoodHuff(t, sc) && GoodSegments(sc, segments, |coefs|) && |parts| < |segments|
    requires PartsOf(env, t, sc, coefs, segments, parts) && PartOf(env, t, sc, coefs, segments[|parts|], part)
    ensures PartsOf(env, t, sc, coefs, segments, parts + [part])
    ensures Lead(parts + [part], |parts|) == Lead(parts, |parts|)
  {
    hide PartOf, GoodHuff, GoodEnv, GoodSegments;
    LeadPrefix(parts, [part], |parts|);
  }

  // Between two segments
  method RestartAfter(w: Writer, t: Tables, sc: Scan, coefs: seq<int>, segments: seq<seq<Visit>>, i: nat, ghost parts: seq<seq<Byte>>)
    returns (ghost more: seq<seq<Byte>>)
    requires GoodHuff(t, sc) && GoodSegments(sc, segments, |coefs|) && i < |segments|
    requires w.Valid() && w.bitBuffer.Length == MAX_CORR_BITS && |w.lastDcVal| == |sc.comps| && w.eobrun == w.be == 0
    requires forall j :: 0 <= j <= i ==> SegmentFits(t, sc, coefs, segments[j])
    requires w.log == SegmentTokens(t, sc, coefs, segments[i]) && w.history == ScanTokens(t, sc, coefs, segments, i) && GoodEnv(w.env)
    requires if w.gather then w.out == [] else |parts| == i && PartsOf(w.env, t, sc, coefs, segments, parts) && w.before == Lead(parts, i)
    modifies w
    ensures Progress(w, t, sc, coefs, segments, more, i + 1)
  {
    hide Writer.Valid, Writer.AtStart, GoodHuff, GoodEnv, GoodSegments, SegmentFits, SegmentTokens, HuffSegment, PartsOf, Codable;
    ghost var before := w.before;
    w.EmitRestart(i % 8);
    ghost var part := if w.gather then [] else w.out[|before|..|w.out| - 2];
    more := parts + [part];
    if !w.gather {
      PartsGrow(w.env, t, sc, coefs, segments, parts, part);
      assert w.out == before + part + [0xFF, 0xD0 + i % 8];
    }
  }

  // The scan with its restarts: in a statistics pass the symbols are counted, otherwise the bytes come out.
  method EncodeScanHuff(env: Env, gather: bool, t: Tables, sc: Scan, coefs: seq<int>, segments: seq<seq<Visit>>)
    returns (ok: bool, bytes: seq<Byte>, counts: seq<seq<nat>>)
    requires GoodEnv(env) && GoodHuff(t, sc) && GoodSegments(sc, segments, |coefs|)
    ensures ScanFits(t, sc, coefs, segments) ==> (ok <==> gather || ScanCodable(env, t, sc, coefs, segments))
    ensures ok ==> ScanFits(t, sc, coefs, segments)
    ensures ok ==> if gather then Counted(counts, true, ScanTokens(t, sc, coefs, segments, |segments|))
                   else CodesHuff(env, t, sc, coefs, segments, bytes)
  {
    hide GoodHuff, GoodEnv, Writer.Valid, Writer.AtStart, SegmentFits, SegmentTokens, HuffSegment, PartsOf, Codable, Counted;
    var w := new Writer(env, gather, |sc.comps|);
    bytes, counts := [], [];
    ghost var parts: seq<seq<Byte>> := [];
    NoParts(env, t, sc, coefs, segments);
    var i := 0;
    while true
      invariant 0 <= i < |segments| && fresh(w) && fresh(w.bitBuffer) && w.env == env && w.gather == gather
      invariant Progress(w, t, sc, coefs, segments, parts, i)
      invariant ScanFits(t, sc, coefs, segments) && !gather ==>
        forall j :: 0 <= j < i ==> Codable(env, SegmentTokens(t, sc, coefs, segments[j]))
      decreases |segments| - i
    {
      EnvOf2(w);
      AtStartRests(w, sc);
      ok := EncodeStart(w, t, sc, coefs, segments[i]);
      if !ok {
        return;
      }
      if i == |segments| - 1 {
        break;
      }
      CountsOf(w);
      parts := RestartAfter(w, t, sc, coefs, segments, i, parts);
      i := i + 1;
    }
    bytes, counts := FinishScan(w, t, sc, coefs, segments, parts);
  }

  lemma NoParts(env: Env, t: Tables, sc: Scan, coefs: seq<int>, segments: seq<seq<Visit>>)
    requires GoodEnv(env) && GoodHuff(t, sc) && GoodSegments(sc, segments, |coefs|)
    ensures PartsOf(env, t, sc, coefs, segments, [])
  {
  }

  // finish_pass
  method FinishScan(w: Writer, t: Tables, sc: Scan, coefs: seq<int>, segments: seq<seq<Visit>>, ghost parts: seq<seq<Byte>>)
    returns (bytes: seq<Byte>, counts: seq<seq<nat>>)
    requires GoodHuff(t, sc) && GoodSegments(sc, segments, |coefs|)
    requires w.Valid() && GoodEnv(w.env) && w.eobrun == w.be == 0 && ScanFits(t, sc, coefs, segments)
    requires w.log == SegmentTokens(t, sc, coefs, segments[|segments| - 1])
    requires w.history == ScanTokens(t, sc, coefs, segments, |segments| - 1)
    requires !w.gather ==> |parts| == |segments| - 1 && PartsOf(w.env, t, sc, coefs, segments, parts) && w.before == Lead(parts, |parts|)
    modifies w
    ensures if w.gather then Counted(counts, true, ScanTokens(t, sc, coefs, segments, |segments|))
            else CodesHuff(w.env, t, sc, coefs, segments, bytes)
  {
    hide GoodHuff, GoodEnv, SegmentFits, SegmentTokens, HuffSegment, PartsOf, Codable, Counted;
    bytes := [];
    counts := w.counts;
    CountsOf(w);
    if !w.gather {
      ghost var before := w.before;
      w.Finish();
      bytes := w.out;
      ghost var part := bytes[|before|..];
      PartsGrow(w.env, t, sc, coefs, segments, parts, part);
      LeadJoined(parts + [part], |parts|);
      assert bytes == before + part;
    }
  }

  lemma CountsOf(w: Writer)
    requires w.Valid()
    ensures Counted(w.counts, w.gather, w.history + w.log) && (w.gather ==> w.out == w.before)
  {
  }
}
