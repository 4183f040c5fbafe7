// Progressive telescoping: after any prefix of a legal script, the decoder holds each coefficient
// exactly as far as its last scan sent it.
module Telescope {
  import opened Numbers
  import opened ArithModel
  import opened ArithDecodeMcu
  import opened ArithBlock
  import opened ArithScan
  import opened Scans
  import opened ScanScript

  // A coefficient (in zigzag position k) as sent down to bit al; -1: not sent.
  function Kept(c: int, k: nat, al: int): int {
    if al < 0 then 0
    else if k == 0 then Shift(c, al) * Pow2(al)
    else PointAc(c, al) * Pow2(al)
  }

  lemma ShiftParts(c: int, p: nat)
    requires p >= 1
    ensures c == c / p * p + c % p && 0 <= c % p < p
  {
  }

  lemma FloorFits(c: int, p: nat, m: nat)
    requires p >= 1 && -(m * p) <= c
    ensures -(m * p) <= c / p * p <= c
  {
    var q := c / p;
    ShiftParts(c, p);
    assert (q + m) * p == q * p + m * p;
    if q + m <= -1 {
      MulLe(1, -(q + m), p);
      MulNeg(q + m, p);
    } else {
      MulLe(0, q + m, p);
    }
  }

  lemma Pow15(al: nat)
    requires al <= 15
    ensures Pow2(15 - al) * Pow2(al) == 0x8000
  {
    Pow2Plus(15 - al, al);
    assert Pow2(8) == 0x100;
    Pow2Plus(7, 8);
  }

  lemma DcKeptFits(c: int, al: nat)
    requires -0x8000 <= c < 0x8000 && al <= 15
    ensures -0x8000 <= Shift(c, al) * Pow2(al) <= c
  {
    hide Pow2;
    Pow15(al);
    FloorFits(c, Pow2(al), Pow2(15 - al));
  }

  lemma DcHalves(c: int, p: nat)
    requires p >= 1
    ensures c / p == 2 * (c / (2 * p)) + c / p % 2
  {
    var q, r := c / (2 * p), c % (2 * p);
    ShiftParts(c, 2 * p);
    MulShiftInt(q, p);
    if r < p {
      QuotientInt(c, p, 2 * q, r);
    } else {
      assert (2 * q + 1) * p == 2 * q * p + p;
      QuotientInt(c, p, 2 * q + 1, r - p);
    }
  }

  lemma MulShiftInt(q: int, p: nat)
    ensures q * (2 * p) == 2 * q * p
  {
  }

  lemma QuotientInt(c: int, p: nat, q: int, r: nat)
    requires p >= 1 && r < p && c == q * p + r
    ensures c / p == q && c % p == r
  {
    var d := c / p - q;
    assert d * p == (c / p) * p - q * p;
    if d >= 1 { MulLe(1, d, p); }
    if d <= -1 { MulLe(1, -d, p); MulNeg(d, p); }
  }

  lemma BitAdded(c: int, p: nat)
    requires p >= 1
    ensures c / (2 * p) * (2 * p) / p % 2 == 0
    ensures c / p * p == c / (2 * p) * (2 * p) + if c / p % 2 == 1 then p else 0
  {
    var q, b := c / (2 * p), c / p % 2;
    DcHalves(c, p);
    MulShiftInt(q, p);
    QuotientInt(2 * q * p, p, 2 * q, 0);
    assert (2 * q + b) * p == 2 * q * p + b * p;
  }

  // One bit more of a DC coefficient.
  lemma DcRefined(c: int, al: nat)
    requires -0x8000 <= c < 0x8000 && al < 15
    ensures Kept(c, 0, al) == if Shift(c, al) % 2 == 1 then SetBit(Kept(c, 0, al + 1), al) else Kept(c, 0, al + 1)
  {
    assert Pow2(al + 1) == 2 * Pow2(al);
    hide Pow2, ToShort;
    DcKeptFits(c, al);
    BitAdded(c, Pow2(al));
  }

  // What an AC refinement scan expects is what the scan before it left.
  lemma AcPrior(c: int, k: nat, al: nat)
    requires k > 0
    ensures Prior(PointAc(c, al), al) == Kept(c, k, al + 1)
    ensures PointAc(c, al) == 0 ==> Kept(c, k, al + 1) == 0
  {
    var p, n := Pow2(al), Abs(c);
    assert Pow2(al + 1) == 2 * p;
    hide Pow2;
    DivTwice(n, p);
    var v: int := n / p;
    assert PointAc(c, al) == if c >= 0 then v else -v;
    assert PointAc(c, al + 1) == if c >= 0 then v / 2 else -(v / 2);
    MulNeg(v / 2, 2 * p);
  }

  // ----- one block -----

  // The decoder's block holds the coefficients of the encoder's as far as `last` says they were sent.
  ghost predicate BlockIs(held: seq<int>, block: seq<int>, order: seq<nat>, last: seq<int>)
    requires IsOrder(order) && |held| == |block| == |last| == 64
  {
    forall k :: 0 <= k < 64 ==> held[order[k]] == Kept(block[order[k]], k, last[k])
  }

  // The parameters of a scan as the entropy coder sees them.
  ghost predicate Describes(sc: Scan, s: ScanInfo) {
    && |sc.comps| == |s.comps|
    && sc.ss == s.ss && sc.se == s.se && sc.ah == s.ah && sc.al == s.al
    && if s.ss == 0 && s.se == 63 then sc.mode == Sequential && s.al == 0 && s.ah == 0
       else GoodBand(s) && sc.mode == SelectMode(true, sc.ss, sc.ah)
  }

  lemma BlockReady(t: Tables, sc: Scan, s: ScanInfo, area: seq<int>, at: nat, block: seq<int>, last: seq<int>)
    requires GoodScan(t, sc) && Describes(sc, s) && IsBlock(block) && at + 64 <= |area| && |last| == 64
    requires Follows(last, s) && BlockIs(area[at..at + 64], block, t.order, last)
    ensures Ready(t, sc, area, at, block)
  {
    if sc.mode == AcRefine {
      hide Kept, Prior;
      forall i | sc.ss <= i <= sc.se && i < 64
        ensures area[at + t.order[i]] == Prior(Zigzag(block, t.order, sc.al)[i], sc.al)
      {
        AcPrior(block[t.order[i]], i, sc.al);
      }
    }
  }

  lemma OrderDistinct(order: seq<nat>, k: nat)
    requires IsOrder(order) && 0 < k < 64
    ensures |order| == 64 && order[0] == 0 && 0 < order[k] < 64
  {
  }

  lemma AcKept(t: Tables, sc: Scan, s: ScanInfo, area: seq<int>, at: nat, block: seq<int>, last: seq<int>, k: nat)
    requires GoodScan(t, sc) && Describes(sc, s) && IsBlock(block) && at + 64 <= |area| && |last| == 64
    requires Follows(last, s) && BlockIs(area[at..at + 64], block, t.order, last) && 0 < k < 64
    ensures BlockEffect(t, sc, area, at, block)[at + t.order[k]] == Kept(block[t.order[k]], k, Sent(last, s)[k])
  {
    hide IsOrder, Placed, ToShort, Pow2, Shift, SetBit;
    OrderDistinct(t.order, k);
    var c, w := block[t.order[k]], Zigzag(block, t.order, sc.al);
    var area1 := if sc.mode == Sequential then area[at := ToShort(Shift(block[0], sc.al) * Pow2(sc.al))] else area;
    PlacedAt(area1, at, t.order, w, sc.al, if sc.mode == Sequential then 1 else sc.ss, sc.se + 1, k);
    PointFits(c, sc.al);
    AcPrior(c, k, sc.al);
    assert area[at..at + 64][t.order[k]] == area[at + t.order[k]];
  }

  lemma DcKept(t: Tables, sc: Scan, s: ScanInfo, area: seq<int>, at: nat, block: seq<int>, last: seq<int>)
    requires GoodScan(t, sc) && Describes(sc, s) && IsBlock(block) && at + 64 <= |area| && |last| == 64
    requires Follows(last, s) && BlockIs(area[at..at + 64], block, t.order, last)
    ensures BlockEffect(t, sc, area, at, block)[at] == Kept(block[0], 0, Sent(last, s)[0])
  {
    hide IsOrder, Placed, ToShort, Pow2, Shift, SetBit;
    var c, w := block[0], Zigzag(block, t.order, sc.al);
    OrderDistinct(t.order, 1);
    assert area[at..at + 64][t.order[0]] == area[at + t.order[0]];
    match sc.mode {
      case Sequential =>
        DcKeptFits(c, 0);
        PlacedAt(area[at := ToShort(Shift(c, sc.al) * Pow2(sc.al))], at, t.order, w, 0, 1, sc.se + 1, 0);
      case DcFirst =>
        DcKeptFits(c, sc.al);
      case DcRefine =>
        DcRefined(c, sc.al);
      case _ =>
        PlacedAt(area, at, t.order, w, sc.al, sc.ss, sc.se + 1, 0);
    }
  }

  // A scan that follows on takes the block from one stage of the script to the next.
  lemma BlockStep(t: Tables, sc: Scan, s: ScanInfo, area: seq<int>, at: nat, block: seq<int>, last: seq<int>)
    requires GoodScan(t, sc) && Describes(sc, s) && IsBlock(block) && at + 64 <= |area| && |last| == 64
    requires Follows(last, s) && BlockIs(area[at..at + 64], block, t.order, last)
    ensures BlockIs(BlockEffect(t, sc, area, at, block)[at..at + 64], block, t.order, Sent(last, s))
  {
    hide BlockEffect, Kept, Sent, Follows;
    var after := BlockEffect(t, sc, area, at, block);
    forall k | 0 <= k < 64
      ensures after[at..at + 64][t.order[k]] == Kept(block[t.order[k]], k, Sent(last, s)[k])
    {
      if k == 0 {
        DcKept(t, sc, s, area, at, block, last);
      } else {
        AcKept(t, sc, s, area, at, block, last, k);
      }
    }
  }

  // ----- all the blocks a scan visits -----

  // For each block of the coefficient arrays its component, and whether it is a real one or fills up an MCU.
  datatype Layout = Layout(comp: seq<nat>, isReal: seq<bool>)

  ghost predicate Fits(lay: Layout, n: nat, size: nat) {
    |lay.comp| == |lay.isReal| && 64 * |lay.comp| == size && forall b :: 0 <= b < |lay.comp| ==> lay.comp[b] < n
  }

  // The scan visits the blocks of its components, every real one among them, and fill-up blocks in interleaved scans only.
  ghost predicate Covers(lay: Layout, s: ScanInfo, visits: seq<Visit>)
    requires |lay.comp| == |lay.isReal|
  {
    && (forall k :: 0 <= k < |visits| ==>
          && visits[k].blk < |lay.comp| && visits[k].ci < |s.comps|
          && s.comps[visits[k].ci] == lay.comp[visits[k].blk]
          && (s.ss != 0 ==> lay.isReal[visits[k].blk]))
    && forall b :: 0 <= b < |lay.comp| && lay.isReal[b] && lay.comp[b] in s.comps ==>
         exists k :: 0 <= k < |visits| && visits[k].blk == b
  }

  ghost predicate HeldAt(area: seq<int>, coefs: seq<int>, lay: Layout, order: seq<nat>, n: nat, pos: BitPos, b: nat)
    requires IsOrder(order) && Fits(lay, n, |coefs|) && Shaped(n, pos) && |area| == |coefs| && b < |lay.comp|
  {
    lay.isReal[b] ==> BlockIs(Block(area, b), Block(coefs, b), order, pos[lay.comp[b]])
  }

  // The whole coefficient area is as the script's positions say.
  ghost predicate AreaIs(area: seq<int>, coefs: seq<int>, lay: Layout, order: seq<nat>, n: nat, pos: BitPos)
    requires IsOrder(order) && Fits(lay, n, |coefs|) && Shaped(n, pos) && |area| == |coefs|
  {
    forall b :: 0 <= b < |lay.comp| ==> HeldAt(area, coefs, lay, order, n, pos, b)
  }

  lemma {:induction false} Untouched(t: Tables, sc: Scan, area: seq<int>, coefs: seq<int>, visits: seq<Visit>, b: nat)
    requires GoodScan(t, sc) && GoodVisits(sc, visits, |coefs|) && |area| == |coefs| && 64 * b + 64 <= |coefs|
    requires forall k :: 0 <= k < |visits| ==> visits[k].blk != b
    ensures Block(VisitsEffect(t, sc, area, coefs, visits), b) == Block(area, b)
    decreases |visits|
  {
    hide BlockEffect, GoodScan;
    if visits != [] {
      var at, first := 64 * visits[0].blk, Block(coefs, visits[0].blk);
      var next := BlockEffect(t, sc, area, at, first);
      forall j | 64 * b <= j < 64 * b + 64
        ensures next[j] == area[j]
      {
        EffectLocal(t, sc, area, at, first, j);
      }
      assert Block(next, b) == Block(area, b);
      Untouched(t, sc, next, coefs, visits[1..], b);
    }
  }

  // A visited block ends up as its own visit alone would leave it.
  lemma {:induction false} Visited(t: Tables, sc: Scan, s: ScanInfo, area: seq<int>, coefs: seq<int>, visits: seq<Visit>, k: nat, last: seq<int>)
    requires GoodScan(t, sc) && GoodVisits(sc, visits, |coefs|) && |area| == |coefs| && IsImage(coefs)
    requires Distinct(visits) && k < |visits| && Describes(sc, s) && |last| == 64 && Follows(last, s)
    requires BlockIs(Block(area, visits[k].blk), Block(coefs, visits[k].blk), t.order, last)
    ensures BlockIs(Block(VisitsEffect(t, sc, area, coefs, visits), visits[k].blk), Block(coefs, visits[k].blk), t.order, Sent(last, s))
    decreases |visits|
  {
    hide BlockEffect, GoodScan, BlockIs, Describes, Follows, Sent;
    var at, first, b := 64 * visits[0].blk, Block(coefs, visits[0].blk), visits[k].blk;
    var next := BlockEffect(t, sc, area, at, first);
    if k == 0 {
      BlockStep(t, sc, s, area, at, first, last);
      assert Block(next, b) == next[at..at + 64];
      Untouched(t, sc, next, coefs, visits[1..], b);
    } else {
      assert visits[0].blk != visits[k].blk;
      Untouched(t, sc, area, coefs, visits[..1], b);
      assert visits[..1][1..] == [];
      assert VisitsEffect(t, sc, area, coefs, visits[..1]) == next;
      assert visits[1..][k - 1] == visits[k];
      Visited(t, sc, s, next, coefs, visits[1..], k - 1, last);
    }
  }

  // The scan carries every one of its components on, in the bands of its mode.
  ghost predicate Carries(n: nat, pos: BitPos, s: ScanInfo)
    requires Shaped(n, pos)
  {
    && GoodComps(n, s)
    && ((s.ss == 0 && s.se == 63 && s.ah == 0 && s.al == 0) || GoodBand(s))
    && forall i :: 0 <= i < |s.comps| ==> Follows(pos[s.comps[i]], s)
  }

  lemma CoversVisits(lay: Layout, sc: Scan, s: ScanInfo, n: nat, size: nat, visits: seq<Visit>)
    requires Fits(lay, n, size) && Covers(lay, s, visits) && |sc.comps| == |s.comps|
    ensures GoodVisits(sc, visits, size)
  {
  }

  // Every refinement scan finds what it needs.
  lemma ScanReady(t: Tables, sc: Scan, s: ScanInfo, area: seq<int>, coefs: seq<int>, lay: Layout, n: nat, pos: BitPos, visits: seq<Visit>)
    requires GoodScan(t, sc) && Describes(sc, s) && IsImage(coefs) && |area| == |coefs|
    requires Fits(lay, n, |coefs|) && Covers(lay, s, visits) && Shaped(n, pos) && Carries(n, pos, s)
    requires AreaIs(area, coefs, lay, t.order, n, pos)
    ensures GoodVisits(sc, visits, |coefs|) && AllReady(t, sc, area, coefs, visits)
  {
    assert IsOrder(t.order);
    hide BlockIs, Follows, GoodScan, GoodBand, IsOrder;
    CoversVisits(lay, sc, s, n, |coefs|, visits);
    forall k | 0 <= k < |visits|
      ensures Ready(t, sc, area, 64 * visits[k].blk, Block(coefs, visits[k].blk))
    {
      hide Ready;
      var b := visits[k].blk;
      assert HeldAt(area, coefs, lay, t.order, n, pos, b);
      if lay.isReal[b] {
        BlockReady(t, sc, s, area, 64 * b, Block(coefs, b), pos[lay.comp[b]]);
      } else {
        NeverAsked(t, sc, s, area, 64 * b, Block(coefs, b));
      }
    }
  }

  lemma NeverAsked(t: Tables, sc: Scan, s: ScanInfo, area: seq<int>, at: nat, block: seq<int>)
    requires GoodScan(t, sc) && Describes(sc, s) && s.ss == 0 && |block| == 64 && at + 64 <= |area|
    ensures Ready(t, sc, area, at, block)
  {
  }

  lemma BlockAfter(t: Tables, sc: Scan, s: ScanInfo, area: seq<int>, coefs: seq<int>, lay: Layout, n: nat, pos: BitPos,
                   visits: seq<Visit>, b: nat)
    requires GoodScan(t, sc) && Describes(sc, s) && IsImage(coefs) && |area| == |coefs| && IsOrder(t.order)
    requires Fits(lay, n, |coefs|) && Covers(lay, s, visits) && Shaped(n, pos) && Carries(n, pos, s)
    requires b < |lay.comp| && HeldAt(area, coefs, lay, t.order, n, pos, b) && Distinct(visits)
    requires GoodVisits(sc, visits, |coefs|) && lay.isReal[b]
    ensures HeldAt(VisitsEffect(t, sc, area, coefs, visits), coefs, lay, t.order, n, After(n, pos, s), b)
  {
    hide BlockIs, Follows, GoodScan, GoodBand, VisitsEffect, Sent, Describes, Distinct, GoodVisits, IsOrder;
    var c := lay.comp[b];
    if c in s.comps {
      assert Follows(pos[c], s);
      var k :| 0 <= k < |visits| && visits[k].blk == b;
      Visited(t, sc, s, area, coefs, visits, k, pos[c]);
    } else {
      forall k | 0 <= k < |visits|
        ensures visits[k].blk != b
      {
        assert s.comps[visits[k].ci] in s.comps;
      }
      Untouched(t, sc, area, coefs, visits, b);
    }
  }

  // A scan takes the whole coefficient area from one stage of the script to the next.
  lemma ScanStep(t: Tables, sc: Scan, s: ScanInfo, area: seq<int>, coefs: seq<int>, lay: Layout, n: nat, pos: BitPos, visits: seq<Visit>)
    requires GoodScan(t, sc) && Describes(sc, s) && IsImage(coefs) && |area| == |coefs|
    requires Fits(lay, n, |coefs|) && Covers(lay, s, visits) && Shaped(n, pos) && Carries(n, pos, s)
    requires AreaIs(area, coefs, lay, t.order, n, pos) && Distinct(visits)
    ensures GoodVisits(sc, visits, |coefs|)
    ensures AreaIs(VisitsEffect(t, sc, area, coefs, visits), coefs, lay, t.order, n, After(n, pos, s))
  {
    assert IsOrder(t.order) && |sc.comps| == |s.comps|;
    CoversVisits(lay, sc, s, n, |coefs|, visits);
    hide BlockIs, GoodScan, VisitsEffect, Describes, Distinct, GoodVisits, IsOrder, Carries, Covers, IsImage, After;
    forall b | 0 <= b < |lay.comp|
      ensures HeldAt(VisitsEffect(t, sc, area, coefs, visits), coefs, lay, t.order, n, After(n, pos, s), b)
    {
      assert HeldAt(area, coefs, lay, t.order, n, pos, b);
      if lay.isReal[b] {
        BlockAfter(t, sc, s, area, coefs, lay, n, pos, visits, b);
      }
    }
  }

  // ----- legal scripts -----

  ghost predicate LegalScript(n: nat, scans: seq<ScanInfo>) {
    scans != [] && if IsProgressive(scans) then LegalProgressive(n, scans) else LegalSequential(n, scans)
  }

  // In a sequential script a component is either wholly sent or not at all.
  lemma {:induction false} SequentialPos(n: nat, scans: seq<ScanInfo>, i: nat, c: nat)
    requires i <= |scans| && c < n && GoodSeqUpTo(n, scans, |scans|)
    ensures PosAfter(n, scans, i)[c] == seq(64, _ => if c in SentBy(scans, i) then 0 else -1)
  {
    if i > 0 {
      SequentialPos(n, scans, i - 1, c);
      assert GoodSeqScan(n, SentBy(scans, i - 1), scans[i - 1]);
    }
  }

  // Every scan of a legal script, of either kind, carries on from the scans before it.
  lemma LegalCarries(n: nat, scans: seq<ScanInfo>, i: nat)
    requires LegalScript(n, scans) && i < |scans|
    ensures Carries(n, PosAfter(n, scans, i), scans[i])
  {
    hide PosAfter, SentBy;
    if IsProgressive(scans) {
      hide Follows;
      assert GoodProgScan(n, PosAfter(n, scans, i), scans[i]);
    } else {
      var s := scans[i];
      assert GoodSeqScan(n, SentBy(scans, i), s);
      forall j | 0 <= j < |s.comps|
        ensures Follows(PosAfter(n, scans, i)[s.comps[j]], s)
      {
        assert s.comps[j] in s.comps;
        SequentialPos(n, scans, i, s.comps[j]);
      }
    }
  }

  // ----- legal coefficients -----

  ghost predicate SmallDc(s: DcState) {
    forall i :: 0 <= i < |s.last| ==> -0x4000 <= s.last[i] < 0x4000
  }

  lemma ShiftSmall(c: int, al: nat)
    requires -0x4000 <= c < 0x4000
    ensures -0x4000 <= Shift(c, al) < 0x4000
  {
    var p := Pow2(al);
    hide Pow2;
    var q := c / p;
    ShiftParts(c, p);
    if q < -0x4000 {
      MulLe(0x4001, -q, p);
      MulNeg(-q, p);
    } else if q >= 0x4000 {
      MulLe(0x4000, q, p);
    }
  }

  // Coefficients of up to 15 bits never make a DC difference the decoder cannot follow.
  lemma {:induction false} SmallFits(t: Tables, sc: Scan, st: DcState, coefs: seq<int>, visits: seq<Visit>)
    requires GoodScan(t, sc) && st.Ok(|sc.comps|) && GoodVisits(sc, visits, |coefs|) && SmallDc(st)
    requires forall j :: 0 <= j < |coefs| ==> -0x4000 <= coefs[j] < 0x4000
    ensures DiffsFit(t, sc, st, coefs, visits)
    decreases |visits|
  {
    hide GoodScan, Shift, NextContext;
    if visits != [] {
      var v, b := visits[0], Block(coefs, visits[0].blk);
      ShiftSmall(b[0], sc.al);
      SmallFits(t, sc, NextDc(t, sc, st, v.ci, b), coefs, visits[1..]);
    }
  }
}
