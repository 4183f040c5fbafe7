// A call of decode_mcu with all bytes of the input there, and why calls that had to be abandoned before it do not show.
module HuffWhole {
  import opened Numbers
  import opened Scans
  import opened HuffTokens
  import opened HuffWrites
  import opened HuffBlock
  import opened HuffMcu

  // The blocks of an MCU; an AC scan has one in each.
  type Mcu = seq<Visit>

  ghost predicate GoodMcu(sc: Scan, mcu: Mcu) { CodesAc(sc.mode) ==> |mcu| == 1 }

  ghost predicate CanDecode(t: Tables, sc: Scan, dec: Decoding, mcu: Mcu, s: Saved, size: nat) {
    GoodHuff(t, sc) && |dec.tbls| == |dec.derived| == 2 * NUM_HUFF_TBLS && |s.last| == |sc.comps| && GoodVisits(sc, mcu, size)
  }

  // The blocks from the i-th on, ws having been written.
  ghost function McuFrom(input: seq<Byte>, dec: Decoding, t: Tables, sc: Scan, mcu: Mcu, i: nat, s: Saved, area: seq<int>,
                         ws: seq<Write>): (f: Outcome<Saved>)
    requires CanDecode(t, sc, dec, mcu, s, |area|)
    ensures ws <= f.ws && (f.Done? ==> |f.value.last| == |s.last|)
    decreases |mcu| - i
  {
    if i >= |mcu| then Done(s, ws)
    else
      var f := BlockFrom(input, dec, t, sc, mcu[i], s, DoAll(MenderOf(sc), area, ws));
      if f.Stuck? then Stuck(ws + f.ws) else McuFrom(input, dec, t, sc, mcu, i + 1, f.value, area, ws + f.ws)
  }

  // Once zero bits had to be made up, an MCU is left as it is, but in a DC refinement scan.
  ghost function CallFrom(input: seq<Byte>, dec: Decoding, t: Tables, sc: Scan, mcu: Mcu, s: Saved, area: seq<int>): (f: Outcome<Saved>)
    requires CanDecode(t, sc, dec, mcu, s, |area|)
    ensures f.Done? ==> |f.value.last| == |s.last|
  {
    if s.cur.dry && sc.mode != DcRefine then Done(s, []) else McuFrom(input, dec, t, sc, mcu, 0, s, area, [])
  }

  // How a call ends: whether the MCU is complete, the state saved for the next call, and the coefficients.
  datatype Ending = Ending(ok: bool, state: Saved, area: seq<int>)

  // What an abandoned call leaves in the blocks.
  ghost function Leaves(sc: Scan, area: seq<int>, ws: seq<Write>): (r: seq<int>)
    ensures |r| == |area|
  {
    var full := DoAll(MenderOf(sc), area, ws);
    if sc.mode == AcRefine then Kept(area, full) else full
  }

  // One call with all bytes of the input there.
  ghost function Whole(input: seq<Byte>, dec: Decoding, t: Tables, sc: Scan, mcu: Mcu, s: Saved, area: seq<int>): (e: Ending)
    requires CanDecode(t, sc, dec, mcu, s, |area|)
    ensures |e.area| == |area| && |e.state.last| == |s.last|
  {
    match CallFrom(input, dec, t, sc, mcu, s, area)
    case Stuck(ws) => Ending(false, s, Leaves(sc, area, ws))
    case Done(next, ws) => Ending(true, next, DoAll(MenderOf(sc), area, ws))
  }

  ghost predicate CanRun(t: Tables, sc: Scan, dec: Decoding, mcus: seq<Mcu>, s: Saved, size: nat) {
    && GoodHuff(t, sc) && |dec.tbls| == |dec.derived| == 2 * NUM_HUFF_TBLS && |s.last| == |sc.comps|
    && forall i :: 0 <= i < |mcus| ==> GoodVisits(sc, mcus[i], size)
  }

  // The MCUs between two restarts, as far as the bytes go.
  ghost function WholeRun(input: seq<Byte>, dec: Decoding, t: Tables, sc: Scan, mcus: seq<Mcu>, s: Saved, area: seq<int>): Ending
    requires CanRun(t, sc, dec, mcus, s, |area|)
    decreases |mcus|
  {
    if mcus == [] then Ending(true, s, area)
    else
      var e := Whole(input, dec, t, sc, mcus[0], s, area);
      if e.ok then WholeRun(input, dec, t, sc, mcus[1..], e.state, e.area) else e
  }

  lemma RunOn(input: seq<Byte>, dec: Decoding, t: Tables, sc: Scan, mcus: seq<Mcu>, i: nat, s: Saved, area: seq<int>)
    requires CanRun(t, sc, dec, mcus, s, |area|) && i < |mcus|
    ensures CanDecode(t, sc, dec, mcus[i], s, |area|)
    ensures CanRun(t, sc, dec, mcus[i..], s, |area|)
    ensures var e := Whole(input, dec, t, sc, mcus[i], s, area);
      && CanRun(t, sc, dec, mcus[i + 1..], e.state, |e.area|) && CanRun(t, sc, dec, mcus, e.state, |e.area|)
      && WholeRun(input, dec, t, sc, mcus[i..], s, area)
        == if e.ok then WholeRun(input, dec, t, sc, mcus[i + 1..], e.state, e.area) else e
  {
    hide Whole, GoodHuff, GoodVisits;
    assert mcus[i..][0] == mcus[i] && mcus[i..][1..] == mcus[i + 1..];
  }

  lemma RunEnds(input: seq<Byte>, dec: Decoding, t: Tables, sc: Scan, mcus: seq<Mcu>, s: Saved, area: seq<int>)
    requires CanRun(t, sc, dec, mcus, s, |area|)
    ensures CanRun(t, sc, dec, mcus[|mcus|..], s, |area|)
    ensures WholeRun(input, dec, t, sc, mcus[|mcus|..], s, area) == Ending(true, s, area)
  {
  }

  // Blocks that differ in what is not zero only are read alike.
  lemma {:induction false} McuSame(input: seq<Byte>, dec: Decoding, t: Tables, sc: Scan, mcu: Mcu, i: nat, s: Saved, area: seq<int>, now: seq<int>,
                                   ws: seq<Write>)
    requires CanDecode(t, sc, dec, mcu, s, |area|) && |now| == |area| && GoodMcu(sc, mcu)
    requires sc.mode == AcRefine ==> (i == 0 ==> ws == []) && forall j :: 0 <= j < |area| ==> (area[j] == 0 <==> now[j] == 0)
    ensures McuFrom(input, dec, t, sc, mcu, i, s, now, ws) == McuFrom(input, dec, t, sc, mcu, i, s, area, ws)
    decreases |mcu| - i
  {
    hide BlockFrom, GoodHuff;
    if i < |mcu| {
      var m := MenderOf(sc);
      BlockSame(input, dec, t, sc, mcu[i], s, DoAll(m, area, ws), DoAll(m, now, ws));
      var f := BlockFrom(input, dec, t, sc, mcu[i], s, DoAll(m, area, ws));
      if f.Done? { McuSame(input, dec, t, sc, mcu, i + 1, f.value, area, now, ws + f.ws); }
    }
  }

  lemma CallSame(input: seq<Byte>, dec: Decoding, t: Tables, sc: Scan, mcu: Mcu, s: Saved, area: seq<int>, now: seq<int>)
    requires CanDecode(t, sc, dec, mcu, s, |area|) && |now| == |area| && GoodMcu(sc, mcu)
    requires sc.mode == AcRefine ==> forall j :: 0 <= j < |area| ==> (area[j] == 0 <==> now[j] == 0)
    ensures CallFrom(input, dec, t, sc, mcu, s, now) == CallFrom(input, dec, t, sc, mcu, s, area)
  {
    hide McuFrom, GoodHuff;
    McuSame(input, dec, t, sc, mcu, 0, s, area, now, []);
  }

  // What is left of an attempt: some coefficients as they will be after its writes, and none but zeros where there were zeros.
  lemma LeftBetween(sc: Scan, area: seq<int>, now: seq<int>, ws: seq<Write>)
    requires sc.al <= 13 && Worked(false, sc, area, now, ws)
    ensures now == Leaves(sc, area, ws) && Between(area, now, DoAll(MenderOf(sc), area, ws))
    ensures sc.mode == AcRefine ==> forall j :: 0 <= j < |area| ==> (area[j] == 0 <==> now[j] == 0)
  {
    hide DoAll;
    if sc.mode == AcRefine {
      forall j | 0 <= j < |area|
        ensures (now[j] == 0 <==> area[j] == 0) && (now[j] == area[j] || now[j] == DoAll(MenderOf(sc), area, ws)[j])
      {
        AbandonedAt(MenderOf(sc), area, now, ws, j);
      }
    }
  }

  // A call over what an abandoned one has left ends as a call over the blocks as they were before it.
  lemma Again(input: seq<Byte>, dec: Decoding, t: Tables, sc: Scan, mcu: Mcu, s: Saved, area: seq<int>, now: seq<int>, ws: seq<Write>)
    requires CanDecode(t, sc, dec, mcu, s, |area|) && GoodMcu(sc, mcu)
    requires Worked(false, sc, area, now, ws) && ws <= CallFrom(input, dec, t, sc, mcu, s, area).ws
    ensures |now| == |area| && Whole(input, dec, t, sc, mcu, s, now) == Whole(input, dec, t, sc, mcu, s, area)
  {
    LeftBetween(sc, area, now, ws);
    hide CallFrom, DoAll, Worked, Between, GoodHuff;
    CallSame(input, dec, t, sc, mcu, s, area, now);
    var f, m := CallFrom(input, dec, t, sc, mcu, s, area), MenderOf(sc);
    DoAgain(m, area, now, ws, f.ws);
    if sc.mode == AcRefine { assert Kept(now, DoAll(m, now, f.ws)) == Kept(area, DoAll(m, area, f.ws)); }
  }

  // The blocks hold a beginning of what the call with all bytes there would write.
  ghost predicate PartDone(input: seq<Byte>, dec: Decoding, t: Tables, sc: Scan, mcu: Mcu, s: Saved, area: seq<int>, now: seq<int>)
    requires CanDecode(t, sc, dec, mcu, s, |area|)
  {
    exists ws :: ws <= CallFrom(input, dec, t, sc, mcu, s, area).ws && now == Leaves(sc, area, ws)
  }

  // ----- the steps of a call -----

  lemma CanStart(t: Tables, sc: Scan, dec: Decoding, mcu: Mcu, s: Saved, area: seq<int>)
    requires GoodHuff(t, sc) && SetUp(sc, dec) && |s.last| == |sc.comps| && GoodVisits(sc, mcu, |area|)
    ensures CanDecode(t, sc, dec, mcu, s, |area|) && Worked(true, sc, area, area, [])
  {
    WroteNothing(MenderOf(sc), area);
  }

  lemma VisitThere(t: Tables, sc: Scan, dec: Decoding, mcu: Mcu, s: Saved, i: nat, size: nat)
    requires CanDecode(t, sc, dec, mcu, s, size) && i < |mcu|
    ensures TablesThere(t, sc, dec, mcu[i].ci, s) && 64 * mcu[i].blk + 64 <= size && mcu[i].ci < |sc.comps|
  {
    hide GoodHuff;
  }

  lemma CallStarts(input: seq<Byte>, dec: Decoding, t: Tables, sc: Scan, mcu: Mcu, s: Saved, area: seq<int>)
    requires CanDecode(t, sc, dec, mcu, s, |area|)
    ensures CallFrom(input, dec, t, sc, mcu, s, area)
      == if s.cur.dry && sc.mode != DcRefine then Done(s, []) else McuFrom(input, dec, t, sc, mcu, 0, s, area, [])
  {
  }

  lemma McuEnds(input: seq<Byte>, dec: Decoding, t: Tables, sc: Scan, mcu: Mcu, s: Saved, area: seq<int>, ws: seq<Write>)
    requires CanDecode(t, sc, dec, mcu, s, |area|)
    ensures McuFrom(input, dec, t, sc, mcu, |mcu|, s, area, ws) == Done(s, ws)
  {
  }

  // One block more of the call, from where the blocks before it have led.
  lemma McuOn(ok: bool, all: bool, input: seq<Byte>, dec: Decoding, t: Tables, sc: Scan, mcu: Mcu, i: nat, s: Saved, next: Saved,
              area0: seq<int>, mid: seq<int>, area: seq<int>, ws: seq<Write>, w: seq<Write>)
    requires CanDecode(t, sc, dec, mcu, s, |area0|) && i < |mcu| && |mid| == |area0| && GoodMcu(sc, mcu) && (i == 0 ==> ws == [])
    requires mcu[i].ci < |sc.comps| && 64 * mcu[i].blk + 64 <= |mid| && TablesThere(t, sc, dec, mcu[i].ci, s)
    requires Follows(ok, all, BlockFrom(input, dec, t, sc, mcu[i], s, mid), next, w)
    requires Worked(true, sc, area0, mid, ws) && Worked(ok, sc, mid, area, w)
    ensures Worked(ok, sc, area0, area, ws + w)
    ensures var f := McuFrom(input, dec, t, sc, mcu, i, s, area0, ws);
      if ok then CanDecode(t, sc, dec, mcu, next, |area0|) && f == McuFrom(input, dec, t, sc, mcu, i + 1, next, area0, ws + w)
      else Follows(false, all, f, next, ws + w)
  {
    hide BlockFrom, GoodHuff, DoAll;
    assert [] + w == w;
    if ok || sc.mode != AcRefine { WroteMore(MenderOf(sc), area0, mid, area, ws, w); } else { WroteNothing(MenderOf(sc), area0); }
  }

  lemma Ended(ok: bool, all: bool, input: seq<Byte>, dec: Decoding, t: Tables, sc: Scan, mcu: Mcu, s: Saved, next: Saved,
              area: seq<int>, now: seq<int>, ws: seq<Write>)
    requires CanDecode(t, sc, dec, mcu, s, |area|) && GoodMcu(sc, mcu) && |now| == |area|
    requires Follows(ok, all, CallFrom(input, dec, t, sc, mcu, s, area), next, ws) && Worked(ok, sc, area, now, ws)
    ensures Whole(input, dec, t, sc, mcu, s, area) ==
      if ok then Ending(true, next, now) else if all then Ending(false, s, now) else Whole(input, dec, t, sc, mcu, s, now)
    ensures if ok then CanDecode(t, sc, dec, mcu, next, |now|) else PartDone(input, dec, t, sc, mcu, s, area, now)
  {
    hide CallFrom, GoodHuff, DoAll;
    if !ok {
      AlFits(t, sc);
      LeftBetween(sc, area, now, ws);
      Again(input, dec, t, sc, mcu, s, area, now, ws);
      assert now == Leaves(sc, area, ws);
    }
  }

  lemma AlFits(t: Tables, sc: Scan)
    requires GoodHuff(t, sc)
    ensures sc.al <= 13
  {
  }
}
