// Decoding the MCUs of a Huffman-coded scan from a data source that may make the decoder wait at any byte.
module HuffDecode {
  import opened Scans
  import opened HuffTable
  import opened HuffTokens
  import opened HuffWrites
  import opened HuffReader
  import opened HuffBlock
  import opened HuffRetry
  import opened HuffMcu
  import opened HuffWhole

  ghost predicate McuRetriable(t: Tables, sc: Scan, area: seq<int>, coefs: seq<int>, mcu: Mcu)
    requires GoodHuff(t, sc) && GoodVisits(sc, mcu, |coefs|) && |area| == |coefs|
  {
    forall k :: 0 <= k < |mcu| ==> Retriable(t, sc, area, 64 * mcu[k].blk, Block(coefs, mcu[k].blk))
  }

  // What one attempt at an MCU does to the coefficients.
  ghost predicate McuDone(ok: bool, t: Tables, sc: Scan, area0: seq<int>, area: seq<int>, coefs: seq<int>, mcu: Mcu)
    requires GoodHuff(t, sc) && GoodVisits(sc, mcu, |coefs|) && |area0| == |area| == |coefs|
  {
    if ok then area == VisitsEffect(t, sc, area0, coefs, mcu)
    else Between(area0, area, VisitsEffect(t, sc, area0, coefs, mcu)) && McuRetriable(t, sc, area, coefs, mcu)
  }

  lemma VisitsParts(sc: Scan, a: seq<Visit>, b: seq<Visit>, size: nat)
    ensures GoodVisits(sc, a + b, size) <==> GoodVisits(sc, a, size) && GoodVisits(sc, b, size)
  {
    if GoodVisits(sc, a + b, size) {
      forall k | 0 <= k < |a|
        ensures a[k].ci < |sc.comps| && 64 * a[k].blk + 64 <= size
      {
        assert (a + b)[k] == a[k];
      }
      forall k | 0 <= k < |b|
        ensures b[k].ci < |sc.comps| && 64 * b[k].blk + 64 <= size
      {
        assert (a + b)[|a| + k] == b[k];
      }
    }
  }

  // The next block of an MCU, whatever was done before it.
  lemma NextRetriable(t: Tables, sc: Scan, area0: seq<int>, area: seq<int>, coefs: seq<int>, mcu: Mcu, i: nat)
    requires GoodHuff(t, sc) && GoodVisits(sc, mcu, |coefs|) && |area0| == |area| == |coefs| && GoodMcu(sc, mcu) && i < |mcu|
    requires McuRetriable(t, sc, area0, coefs, mcu) && (i == 0 ==> area == area0)
    ensures Retriable(t, sc, area, 64 * mcu[i].blk, Block(coefs, mcu[i].blk))
  {
    hide GoodScan;
  }

  lemma LastRetriable(t: Tables, sc: Scan, area: seq<int>, coefs: seq<int>, mcu: Mcu, i: nat)
    requires GoodHuff(t, sc) && GoodVisits(sc, mcu, |coefs|) && |area| == |coefs| && GoodMcu(sc, mcu) && i < |mcu|
    requires Retriable(t, sc, area, 64 * mcu[i].blk, Block(coefs, mcu[i].blk))
    ensures McuRetriable(t, sc, area, coefs, mcu)
  {
    hide GoodScan;
  }

  lemma Lively(d: Reader, env: Env, t: Tables, sc: Scan, coefs: seq<int>, visits: seq<Visit>)
    requires GoodEnv(env) && d.Valid() && GoodHuff(t, sc) && GoodVisits(sc, visits, |coefs|) && AtVisits(d, env, t, sc, coefs, visits)
    ensures !d.insufficientData
  {
    hide GoodScan, Bands, DcBlocks, Reader.Remaining, Reader.MarkerAhead;
  }

  // decode_mcu, whichever it is
  method DecodeMcu(d: Reader, dec: Decoding, t: Tables, sc: Scan, mcu: Mcu, area: array<int>,
                   ghost env: Env, ghost coefs: seq<int>, ghost later: seq<Visit>)
    returns (ok: bool, ghost ws: seq<Write>)
    requires d.Valid() && GoodEnv(env) && GoodHuff(t, sc) && SetUp(sc, dec) && GoodMcu(sc, mcu)
    requires |d.lastDcVal| == |sc.comps| && IsImage(coefs) && area.Length == |coefs|
    requires GoodVisits(sc, mcu, |coefs|) && GoodVisits(sc, mcu + later, |coefs|) && GoodVisits(sc, later, |coefs|) && Distinct(mcu)
    modifies d`pos, d`unreadMarker, d`getBuffer, d`bitsLeft, d`held, d`insufficientData, d`lastDcVal, d`eobrun, area
    ensures d.Unmarked(ok) && |d.lastDcVal| == |sc.comps| && (ok ==> d.Valid())
    ensures CanDecode(t, sc, dec, mcu, old(StateOf(d)), area.Length)
    ensures Follows(ok, d.avail == |d.input|, CallFrom(d.input, dec, t, sc, mcu, old(StateOf(d)), old(area[..])), StateOf(d), ws)
    ensures Worked(ok, sc, old(area[..]), area[..], ws)
    ensures HasTables(sc, env, dec) && old(AtVisits(d, env, t, sc, coefs, mcu + later)) && McuRetriable(t, sc, old(area[..]), coefs, mcu) ==>
      (d.avail == |d.input| ==> ok) && McuDone(ok, t, sc, old(area[..]), area[..], coefs, mcu)
      && (ok ==> AtVisits(d, env, t, sc, coefs, later))
  {
    hide Reader.Valid, GoodEnv, GoodHuff, GoodScan, HasTables, SetUp, AtVisits, Retriable;
    hide BlockDone, Between, IsImage, Distinct, McuRetriable, GoodMcu, Block;
    hide BlockFrom, McuFrom, Worked, DoAll, CanDecode, CallFrom;
    ghost var area0 := area[..];
    ghost var s0 := StateOf(d);
    CanStart(t, sc, dec, mcu, s0, area0);
    ghost var sync := HasTables(sc, env, dec) && AtVisits(d, env, t, sc, coefs, mcu + later) && McuRetriable(t, sc, area0, coefs, mcu);
    ok, ws := true, [];
    if sync { Lively(d, env, t, sc, coefs, mcu + later); }
    CallStarts(d.input, dec, t, sc, mcu, s0, area0);
    if d.insufficientData && sc.mode != DcRefine {
      return;
    }
    ghost var whole := McuFrom(d.input, dec, t, sc, mcu, 0, s0, area0, []);
    var i := 0;
    assert mcu[0..] == mcu && mcu[..0] == [];
    while i < |mcu|
      invariant 0 <= i <= |mcu| && d.Valid() && d.Unmarked(true) && |d.lastDcVal| == |sc.comps| && ok
      invariant CanDecode(t, sc, dec, mcu, StateOf(d), area.Length) && Worked(true, sc, area0, area[..], ws) && (i == 0 ==> ws == [])
      invariant McuFrom(d.input, dec, t, sc, mcu, i, StateOf(d), area0, ws) == whole
      invariant GoodVisits(sc, mcu[i..] + later, |coefs|)
      invariant sync ==> AtVisits(d, env, t, sc, coefs, mcu[i..] + later)
      invariant sync ==> area[..] == VisitsEffect(t, sc, area0, coefs, mcu[..i])
      invariant i == 0 ==> area[..] == area0
    {
      ghost var left, mid := mcu[i..] + later, area[..];
      assert left[0] == mcu[i] && left[1..] == mcu[i + 1..] + later;
      if sync { NextRetriable(t, sc, area0, mid, coefs, mcu, i); }
      ghost var w;
      ghost var s := StateOf(d);
      VisitThere(t, sc, dec, mcu, s, i, area.Length);
      ok, w := DecodeBlock(d, dec, t, sc, mcu[i], area, env, coefs, left);
      McuOn(ok, d.avail == |d.input|, d.input, dec, t, sc, mcu, i, s, StateOf(d), area0, mid, area[..], ws, w);
      ws := ws + w;
      if sync { Onward(ok, t, sc, area0, mid, area[..], coefs, mcu, i); }
      if !ok {
        return;
      }
      i := i + 1;
    }
    McuEnds(d.input, dec, t, sc, mcu, StateOf(d), area0, ws);
    assert mcu[i..] + later == later && mcu[..i] == mcu;
  }

  lemma InTheMiddle(mcu: Mcu, i: nat)
    requires i < |mcu|
    ensures mcu[..i] + mcu[i..] == mcu && mcu[..i] + [mcu[i]] == mcu[..i + 1]
    ensures [mcu[i]] + mcu[i + 1..] == mcu[i..] && mcu[i..] != [] && mcu[i..][0] == mcu[i]
  {
  }

  lemma Onward(ok: bool, t: Tables, sc: Scan, area0: seq<int>, mid: seq<int>, area: seq<int>, coefs: seq<int>, mcu: Mcu, i: nat)
    requires GoodHuff(t, sc) && GoodVisits(sc, mcu, |coefs|) && GoodMcu(sc, mcu) && Distinct(mcu) && i < |mcu|
    requires |area0| == |mid| == |area| == |coefs| && mid == VisitsEffect(t, sc, area0, coefs, mcu[..i])
    requires BlockDone(ok, t, sc, mid, area, 64 * mcu[i].blk, Block(coefs, mcu[i].blk))
    ensures if ok then area == VisitsEffect(t, sc, area0, coefs, mcu[..i + 1]) else McuDone(false, t, sc, area0, area, coefs, mcu)
  {
    hide BlockEffect, GoodScan, Between, Distinct, Retriable, VisitsEffect, Block, GoodVisits, McuRetriable, GoodMcu, GoodHuff;
    var a, v, rest := mcu[..i], mcu[i], mcu[i..];
    InTheMiddle(mcu, i);
    VisitsParts(sc, a, rest, |coefs|);
    VisitsParts(sc, [v], mcu[i + 1..], |coefs|);
    if ok {
      EffectConcat(t, sc, area0, coefs, a, [v]);
      OneEffect(t, sc, mid, coefs, v);
    } else {
      PartWay(t, sc, area0, area, coefs, a, rest);
      LastRetriable(t, sc, area, coefs, mcu, i);
    }
  }

  lemma OneEffect(t: Tables, sc: Scan, area: seq<int>, coefs: seq<int>, v: Visit)
    requires GoodScan(t, sc) && |area| == |coefs| && GoodVisits(sc, [v], |coefs|)
    ensures 64 * v.blk + 64 <= |coefs|
    ensures VisitsEffect(t, sc, area, coefs, [v]) == BlockEffect(t, sc, area, 64 * v.blk, Block(coefs, v.blk))
  {
    assert [v][0] == v && [v][1..] == [];
  }

  // A whole call: when the decoder has to wait, the working state is dropped, and the saved state stays as it was.
  method Attempt(d: Reader, dec: Decoding, t: Tables, sc: Scan, mcu: Mcu, area: array<int>,
                 ghost env: Env, ghost coefs: seq<int>, ghost later: seq<Visit>)
    returns (ok: bool)
    requires d.Valid() && GoodEnv(env) && GoodHuff(t, sc) && SetUp(sc, dec) && GoodMcu(sc, mcu)
    requires |d.lastDcVal| == |sc.comps| && IsImage(coefs) && area.Length == |coefs|
    requires GoodVisits(sc, mcu, |coefs|) && GoodVisits(sc, mcu + later, |coefs|) && GoodVisits(sc, later, |coefs|) && Distinct(mcu)
    modifies d`pos, d`unreadMarker, d`getBuffer, d`bitsLeft, d`held, d`insufficientData, d`lastDcVal, d`eobrun, area
    ensures d.Valid() && |d.lastDcVal| == |sc.comps|
    ensures !ok ==> unchanged(d)
    ensures CanDecode(t, sc, dec, mcu, old(StateOf(d)), area.Length) && CanDecode(t, sc, dec, mcu, StateOf(d), area.Length)
    ensures !ok ==> PartDone(d.input, dec, t, sc, mcu, StateOf(d), old(area[..]), area[..])
    ensures Whole(d.input, dec, t, sc, mcu, old(StateOf(d)), old(area[..])) ==
      if ok || d.avail == |d.input| then Ending(ok, StateOf(d), area[..]) else Whole(d.input, dec, t, sc, mcu, StateOf(d), area[..])
    ensures HasTables(sc, env, dec) && old(AtVisits(d, env, t, sc, coefs, mcu + later)) && McuRetriable(t, sc, old(area[..]), coefs, mcu) ==>
      (d.avail == |d.input| ==> ok) && McuDone(ok, t, sc, old(area[..]), area[..], coefs, mcu)
      && (if ok then AtVisits(d, env, t, sc, coefs, later) else AtVisits(d, env, t, sc, coefs, mcu + later))
  {
    hide GoodEnv, GoodHuff, GoodScan, HasTables, SetUp, AtVisits, McuDone, McuRetriable, IsImage, Distinct, GoodMcu;
    hide Whole, CallFrom, Worked, CanDecode, PartDone;
    ghost var s0, area0 := StateOf(d), area[..];
    ghost var ws;
    var pos, getBuffer, bitsLeft := d.pos, d.getBuffer, d.bitsLeft;
    var lastDcVal, eobrun := d.lastDcVal, d.eobrun;
    ghost var held := d.held;
    ok, ws := DecodeMcu(d, dec, t, sc, mcu, area, env, coefs, later);
    Ended(ok, d.avail == |d.input|, d.input, dec, t, sc, mcu, s0, StateOf(d), area0, area[..], ws);
    if !ok {
      d.pos, d.getBuffer, d.bitsLeft := pos, getBuffer, bitsLeft;
      d.lastDcVal, d.eobrun := lastDcVal, eobrun;
      d.held := held;
    }
  }

  // More bytes change nothing but what can be read.
  method Wait(d: Reader, ghost t: Tables, ghost sc: Scan, ghost env: Env, ghost coefs: seq<int>, ghost visits: seq<Visit>)
    requires d.Valid() && GoodEnv(env) && GoodHuff(t, sc) && GoodVisits(sc, visits, |coefs|)
    modifies d`avail, d`arrivals
    ensures d.Valid() && (d.arrivals == [] || |d.arrivals| < |old(d.arrivals)|) && (old(d.arrivals) == [] ==> d.avail == |d.input|)
    ensures old(AtVisits(d, env, t, sc, coefs, visits)) ==> AtVisits(d, env, t, sc, coefs, visits)
  {
    hide Reader.Valid, Reader.InSync, GoodEnv, GoodHuff, GoodScan, AllFits, Bands, DcBlocks;
    d.Arrive();
  }

  // However far an attempt came, the next one ends where the first would have ended.
  lemma DoneAgain(ok: bool, t: Tables, sc: Scan, area0: seq<int>, mid: seq<int>, area: seq<int>, coefs: seq<int>, mcu: Mcu)
    requires GoodHuff(t, sc) && GoodVisits(sc, mcu, |coefs|) && Distinct(mcu) && |area0| == |mid| == |area| == |coefs|
    requires McuDone(false, t, sc, area0, mid, coefs, mcu) && McuDone(ok, t, sc, mid, area, coefs, mcu)
    ensures McuDone(ok, t, sc, area0, area, coefs, mcu)
  {
    hide GoodHuff, GoodScan, Distinct, McuRetriable, VisitsEffect;
    EffectsAgain(t, sc, area0, mid, coefs, mcu);
  }

  // The caller's loop: attempt, wait for more bytes, attempt again. However the bytes arrive, the result is that of one attempt
  // with all of them there.
  method DecodeMcuWaiting(d: Reader, dec: Decoding, t: Tables, sc: Scan, mcu: Mcu, area: array<int>,
                          ghost env: Env, ghost coefs: seq<int>, ghost later: seq<Visit>)
    returns (ok: bool)
    requires d.Valid() && GoodEnv(env) && GoodHuff(t, sc) && SetUp(sc, dec) && GoodMcu(sc, mcu)
    requires |d.lastDcVal| == |sc.comps| && IsImage(coefs) && area.Length == |coefs|
    requires GoodVisits(sc, mcu, |coefs|) && GoodVisits(sc, mcu + later, |coefs|) && GoodVisits(sc, later, |coefs|) && Distinct(mcu)
    modifies d`pos, d`unreadMarker, d`getBuffer, d`bitsLeft, d`held, d`insufficientData, d`lastDcVal, d`eobrun, d`avail, d`arrivals, area
    ensures d.Valid() && |d.lastDcVal| == |sc.comps|
    ensures CanDecode(t, sc, dec, mcu, old(StateOf(d)), area.Length)
    ensures Whole(d.input, dec, t, sc, mcu, old(StateOf(d)), old(area[..])) == Ending(ok, StateOf(d), area[..])
    ensures HasTables(sc, env, dec) && old(AtVisits(d, env, t, sc, coefs, mcu + later)) && McuRetriable(t, sc, old(area[..]), coefs, mcu) ==>
      ok && area[..] == VisitsEffect(t, sc, old(area[..]), coefs, mcu) && AtVisits(d, env, t, sc, coefs, later)
  {
    hide Reader.Valid, GoodEnv, GoodHuff, GoodScan, HasTables, SetUp, AtVisits, McuDone, McuRetriable, IsImage, Distinct, GoodMcu, VisitsEffect;
    hide Whole, CanDecode, PartDone;
    ghost var area0 := area[..];
    ghost var s0 := StateOf(d);
    CanStart(t, sc, dec, mcu, s0, area0);
    ghost var sync := HasTables(sc, env, dec) && AtVisits(d, env, t, sc, coefs, mcu + later) && McuRetriable(t, sc, area0, coefs, mcu);
    ok := Attempt(d, dec, t, sc, mcu, area, env, coefs, later);
    while !ok && d.avail < |d.input|
      invariant CanDecode(t, sc, dec, mcu, StateOf(d), area.Length)
      invariant Whole(d.input, dec, t, sc, mcu, s0, area0) ==
        if ok || d.avail == |d.input| then Ending(ok, StateOf(d), area[..]) else Whole(d.input, dec, t, sc, mcu, StateOf(d), area[..])
      invariant d.Valid() && |d.lastDcVal| == |sc.comps|
      invariant sync ==> (d.avail == |d.input| ==> ok) && McuDone(ok, t, sc, area0, area[..], coefs, mcu)
      invariant sync ==> if ok then AtVisits(d, env, t, sc, coefs, later) else AtVisits(d, env, t, sc, coefs, mcu + later)
      decreases |d.arrivals| + if d.avail < |d.input| then 1 else 0
    {
      ghost var mid := area[..];
      Wait(d, t, sc, env, coefs, mcu + later);
      if sync { Abandoned(t, sc, area0, mid, coefs, mcu); }
      ok := Attempt(d, dec, t, sc, mcu, area, env, coefs, later);
      if sync { DoneAgain(ok, t, sc, area0, mid, area[..], coefs, mcu); }
    }
    NotLost(d);
    if sync { Finished(t, sc, area0, area[..], coefs, mcu); }
  }

  // The same for a stream about which nothing is known.
  method DecodeAnyMcu(d: Reader, dec: Decoding, t: Tables, sc: Scan, mcu: Mcu, area: array<int>) returns (ok: bool)
    requires d.Valid() && GoodHuff(t, sc) && SetUp(sc, dec) && GoodMcu(sc, mcu) && |d.lastDcVal| == |sc.comps|
    requires area.Length % 64 == 0 && GoodVisits(sc, mcu, area.Length) && Distinct(mcu)
    modifies d`pos, d`unreadMarker, d`getBuffer, d`bitsLeft, d`held, d`insufficientData, d`lastDcVal, d`eobrun, d`avail, d`arrivals, area
    ensures d.Valid() && CanDecode(t, sc, dec, mcu, old(StateOf(d)), area.Length)
    ensures Whole(d.input, dec, t, sc, mcu, old(StateOf(d)), old(area[..])) == Ending(ok, StateOf(d), area[..])
  {
    hide Reader.Valid, GoodHuff, GoodScan, SetUp, AtVisits, Distinct, GoodMcu, Whole, CanDecode;
    ghost var env, coefs := NoCodes(), seq(area.Length, _ => 0);
    assert mcu + [] == mcu;
    ok := DecodeMcuWaiting(d, dec, t, sc, mcu, area, env, coefs, []);
  }

  // Tables in which no symbol has a code.
  ghost function NoCodes(): (env: Env)
    ensures GoodEnv(env)
  {
    seq(2 * NUM_HUFF_TBLS, _ => CDerived(seq(256, _ => 0), seq(256, _ => 0)))
  }

  lemma Abandoned(t: Tables, sc: Scan, area0: seq<int>, mid: seq<int>, coefs: seq<int>, mcu: Mcu)
    requires GoodHuff(t, sc) && GoodVisits(sc, mcu, |coefs|) && |area0| == |mid| == |coefs| && McuDone(false, t, sc, area0, mid, coefs, mcu)
    ensures McuRetriable(t, sc, mid, coefs, mcu)
  {
  }

  lemma Finished(t: Tables, sc: Scan, area0: seq<int>, area: seq<int>, coefs: seq<int>, mcu: Mcu)
    requires GoodHuff(t, sc) && GoodVisits(sc, mcu, |coefs|) && |area0| == |area| == |coefs| && McuDone(true, t, sc, area0, area, coefs, mcu)
    ensures area == VisitsEffect(t, sc, area0, coefs, mcu)
  {
  }

  lemma NotLost(d: Reader)
    requires d.Valid()
    ensures d.avail <= |d.input|
  {
  }

  // ----- segments -----

  ghost predicate GoodMcus(sc: Scan, mcus: seq<Mcu>, size: nat) {
    GoodVisits(sc, Flat(mcus), size) && forall i :: 0 <= i < |mcus| ==> GoodMcu(sc, mcus[i])
  }

  lemma McusSplit(sc: Scan, mcus: seq<Mcu>, i: nat, size: nat)
    requires i < |mcus| && GoodVisits(sc, Flat(mcus[i..]), size)
    ensures Flat(mcus[i..]) == mcus[i] + Flat(mcus[i + 1..])
    ensures GoodVisits(sc, mcus[i], size) && GoodVisits(sc, Flat(mcus[i + 1..]), size) && GoodVisits(sc, mcus[i] + Flat(mcus[i + 1..]), size)
  {
    hide GoodVisits, Flat;
    FlatFrom(mcus, i);
    VisitsParts(sc, mcus[i], Flat(mcus[i + 1..]), size);
  }

  lemma ReadyMcu(t: Tables, sc: Scan, area: seq<int>, coefs: seq<int>, mcu: Mcu, later: seq<Visit>)
    requires GoodHuff(t, sc) && GoodVisits(sc, mcu, |coefs|) && GoodVisits(sc, later, |coefs|) && GoodVisits(sc, mcu + later, |coefs|)
    requires |area| == |coefs| && Distinct(mcu + later) && AllReady(t, sc, area, coefs, mcu + later)
    ensures Distinct(mcu) && Distinct(later) && McuRetriable(t, sc, area, coefs, mcu)
    ensures AllReady(t, sc, VisitsEffect(t, sc, area, coefs, mcu), coefs, later)
    ensures VisitsEffect(t, sc, VisitsEffect(t, sc, area, coefs, mcu), coefs, later) == VisitsEffect(t, sc, area, coefs, mcu + later)
  {
    hide Ready, GoodScan, GoodVisits, Distinct, VisitsEffect, Retriable, Block;
    DistinctParts(mcu, later);
    ReadyAfter(t, sc, area, coefs, mcu, later);
    EffectConcat(t, sc, area, coefs, mcu, later);
    ReadyPrefix(t, sc, area, coefs, mcu, later);
    AllRetriable(t, sc, area, coefs, mcu);
  }

  lemma AllRetriable(t: Tables, sc: Scan, area: seq<int>, coefs: seq<int>, mcu: Mcu)
    requires GoodHuff(t, sc) && GoodVisits(sc, mcu, |coefs|) && |area| == |coefs| && AllReady(t, sc, area, coefs, mcu)
    ensures McuRetriable(t, sc, area, coefs, mcu)
  {
    hide Ready, GoodScan, Retriable, Block;
    forall k | 0 <= k < |mcu|
      ensures Retriable(t, sc, area, 64 * mcu[k].blk, Block(coefs, mcu[k].blk))
    {
      ReadyIsRetriable(t, sc, area, 64 * mcu[k].blk, Block(coefs, mcu[k].blk));
    }
  }

  lemma McusRunnable(t: Tables, sc: Scan, dec: Decoding, mcus: seq<Mcu>, s: Saved, size: nat)
    requires GoodHuff(t, sc) && SetUp(sc, dec) && GoodMcus(sc, mcus, size) && |s.last| == |sc.comps|
    ensures CanRun(t, sc, dec, mcus, s, size)
  {
    hide GoodHuff, SetUpFor;
    EachGood(sc, mcus, size);
  }

  lemma {:induction false} EachGood(sc: Scan, mcus: seq<Mcu>, size: nat)
    requires GoodVisits(sc, Flat(mcus), size)
    ensures forall i :: 0 <= i < |mcus| ==> GoodVisits(sc, mcus[i], size)
  {
    hide GoodVisits;
    if mcus != [] {
      VisitsParts(sc, mcus[0], Flat(mcus[1..]), size);
      EachGood(sc, mcus[1..], size);
      forall i | 0 <= i < |mcus|
        ensures GoodVisits(sc, mcus[i], size)
      {
        if i > 0 { assert mcus[i] == mcus[1..][i - 1]; }
      }
    }
  }

  // The MCUs between two restarts
  method DecodeMcus(d: Reader, dec: Decoding, t: Tables, sc: Scan, mcus: seq<Mcu>, area: array<int>, ghost env: Env, ghost coefs: seq<int>)
    returns (ok: bool)
    requires d.Valid() && GoodEnv(env) && GoodHuff(t, sc) && SetUp(sc, dec) && GoodMcus(sc, mcus, |coefs|)
    requires |d.lastDcVal| == |sc.comps| && IsImage(coefs) && area.Length == |coefs| && Distinct(Flat(mcus))
    modifies d`pos, d`unreadMarker, d`getBuffer, d`bitsLeft, d`held, d`insufficientData, d`lastDcVal, d`eobrun, d`avail, d`arrivals, area
    ensures d.Valid() && |d.lastDcVal| == |sc.comps|
    ensures CanRun(t, sc, dec, mcus, old(StateOf(d)), area.Length)
    ensures WholeRun(d.input, dec, t, sc, mcus, old(StateOf(d)), old(area[..])) == Ending(ok, StateOf(d), area[..])
    ensures HasTables(sc, env, dec) && old(AtVisits(d, env, t, sc, coefs, Flat(mcus))) && AllReady(t, sc, old(area[..]), coefs, Flat(mcus)) ==>
      ok && area[..] == VisitsEffect(t, sc, old(area[..]), coefs, Flat(mcus)) && AtEnd(d)
  {
    hide Reader.Valid, GoodEnv, GoodHuff, GoodScan, HasTables, SetUp, AtVisits, McuRetriable;
    hide IsImage, Distinct, VisitsEffect, AllReady, GoodVisits, Flat, AtEnd;
    hide Whole, WholeRun, CanRun, CanDecode;
    ghost var area0, all := area[..], Flat(mcus);
    ghost var s0 := StateOf(d);
    McusRunnable(t, sc, dec, mcus, s0, |coefs|);
    ghost var whole := WholeRun(d.input, dec, t, sc, mcus, s0, area0);
    ghost var sync := HasTables(sc, env, dec) && AtVisits(d, env, t, sc, coefs, all) && AllReady(t, sc, area0, coefs, all);
    ok := true;
    var i := 0;
    assert mcus[0..] == mcus;
    while i < |mcus|
      invariant 0 <= i <= |mcus| && d.Valid() && |d.lastDcVal| == |sc.comps| && ok
      invariant CanRun(t, sc, dec, mcus, StateOf(d), area.Length) && CanRun(t, sc, dec, mcus[i..], StateOf(d), area.Length)
      invariant WholeRun(d.input, dec, t, sc, mcus[i..], StateOf(d), area[..]) == whole
      invariant GoodVisits(sc, Flat(mcus[i..]), |coefs|) && Distinct(Flat(mcus[i..]))
      invariant sync ==> AtVisits(d, env, t, sc, coefs, Flat(mcus[i..])) && AllReady(t, sc, area[..], coefs, Flat(mcus[i..]))
      invariant sync ==> VisitsEffect(t, sc, area[..], coefs, Flat(mcus[i..])) == VisitsEffect(t, sc, area0, coefs, all)
    {
      ghost var later := Flat(mcus[i + 1..]);
      RunOn(d.input, dec, t, sc, mcus, i, StateOf(d), area[..]);
      McusSplit(sc, mcus, i, |coefs|);
      DistinctParts(mcus[i], later);
      if sync { ReadyMcu(t, sc, area[..], coefs, mcus[i], later); }
      ok := DecodeMcuWaiting(d, dec, t, sc, mcus[i], area, env, coefs, later);
      if !ok {
        return;
      }
      i := i + 1;
    }
    RunEnds(d.input, dec, t, sc, mcus, StateOf(d), area[..]);
    assert mcus[i..] == [];
    if sync { AllDone(d, env, t, sc, area[..], coefs); }
  }

  // All tokens of the segment have been read: its marker is next.
  ghost predicate AtEnd(d: Reader)
    requires d.Valid()
    reads d`pos, d`unreadMarker, d`landing, d`avail, d`bitsLeft, d`held, d`getBuffer
  {
    d.MarkerAhead()
  }

  lemma AllDone(d: Reader, env: Env, t: Tables, sc: Scan, area: seq<int>, coefs: seq<int>)
    requires GoodEnv(env) && d.Valid() && GoodHuff(t, sc) && |area| == |coefs|
    requires GoodVisits(sc, Flat([]), |coefs|) && AtVisits(d, env, t, sc, coefs, Flat([]))
    ensures VisitsEffect(t, sc, area, coefs, Flat([])) == area && AtEnd(d)
  {
    hide Reader.Remaining, Reader.MarkerAhead;
  }

  // process_restart, called until the marker has arrived.
  method RestartWaiting(d: Reader, num: nat) returns (found: bool)
    requires d.Valid() && num < 8
    modifies d
    ensures |d.lastDcVal| == |old(d.lastDcVal)| && (found ==> d.AtStart())
    ensures old(AtEnd(d)) && old(d.landing).0 == 0xD0 + num ==> found && d.pos <= |d.input| && d.input[d.pos..] == old(d.landing).1
  {
    hide Reader.Valid, Reader.AtStart, Reader.MarkerAhead;
    ghost var sync, landing := AtEnd(d), d.landing;
    var ok;
    ok, found := d.ProcessRestart(num);
    while !ok && d.avail < |d.input|
      invariant (!ok ==> d.Valid()) && |d.lastDcVal| == |old(d.lastDcVal)| && (ok && found ==> d.AtStart())
      invariant sync ==> (d.avail == |d.input| ==> ok)
      invariant sync ==> if ok then found <==> landing.0 == 0xD0 + num else AtEnd(d) && d.landing == landing
      invariant sync && ok && found ==> d.pos <= |d.input| && d.input[d.pos..] == landing.1
      decreases |d.arrivals| + if d.avail < |d.input| then 1 else 0
    {
      d.Arrive();
      ok, found := d.ProcessRestart(num);
    }
    if !ok {
      NotLost(d);
      found := false;
    }
  }
}
