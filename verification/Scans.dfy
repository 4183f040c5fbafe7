// What both entropy coders share: scans, the blocks they visit, and what decoding a block does to the coefficients.
module Scans {
  import opened Numbers
  import opened ArithModel

  datatype Comp = Comp(dcTbl: nat, acTbl: nat)

  datatype Mode = Sequential | DcFirst | AcFirst | DcRefine | AcRefine

  // Conditioning parameters and coefficient order, fixed for the image.
  datatype Tables = Tables(dcL: seq<nat>, dcU: seq<nat>, acK: seq<nat>, order: seq<nat>)

  datatype Scan = Scan(mode: Mode, comps: seq<Comp>, ss: nat, se: nat, ah: nat, al: nat)

  // The routine selection of start_pass.
  function SelectMode(progressive: bool, ss: nat, ah: nat): Mode {
    if !progressive then Sequential
    else if ah == 0 then if ss == 0 then DcFirst else AcFirst
    else if ss == 0 then DcRefine else AcRefine
  }

  ghost predicate GoodScan(t: Tables, sc: Scan) {
    && IsOrder(t.order) && |t.dcL| == |t.dcU| == |t.acK| == NUM_ARITH_TBLS
    && (forall i :: 0 <= i < |sc.comps| ==> sc.comps[i].dcTbl < NUM_ARITH_TBLS && sc.comps[i].acTbl < NUM_ARITH_TBLS)
    && sc.se < 64
    && match sc.mode
       case Sequential => sc.al == 0
       case AcFirst => 1 <= sc.ss <= sc.se
       case AcRefine => 1 <= sc.ss <= sc.se && sc.ah == sc.al + 1
       case _ => true
  }

  // Arithmetic right shift.
  function Shift(c: int, al: nat): int { c / Pow2(al) }

  function CodesDc(mode: Mode): bool { mode == Sequential || mode == DcFirst }

  // ----- what decoding a block does to the coefficient area -----

  // c |= 1 << al
  function SetBit(c: int, al: nat): int {
    if c / Pow2(al) % 2 == 1 then c else ToShort(c + Pow2(al))
  }

  function BlockEffect(t: Tables, sc: Scan, area: seq<int>, at: nat, block: seq<int>): (r: seq<int>)
    requires GoodScan(t, sc) && |block| == 64 && at + 64 <= |area|
    ensures |r| == |area|
  {
    var w := Zigzag(block, t.order, sc.al);
    var dc := ToShort(Shift(block[0], sc.al) * Pow2(sc.al));
    match sc.mode
    case Sequential => Placed(area[at := dc], at, t.order, w, 0, 1, sc.se + 1)
    case DcFirst => area[at := dc]
    case AcFirst => Placed(area, at, t.order, w, sc.al, sc.ss, sc.se + 1)
    case DcRefine => if Shift(block[0], sc.al) % 2 == 1 then area[at := SetBit(area[at], sc.al)] else area
    case AcRefine => Placed(area, at, t.order, w, sc.al, sc.ss, sc.se + 1)
  }

  // What a refinement scan needs of the decoder's block.
  ghost predicate Ready(t: Tables, sc: Scan, area: seq<int>, at: nat, block: seq<int>)
    requires GoodScan(t, sc) && |block| == 64 && at + 64 <= |area|
  {
    sc.mode == AcRefine ==> Unrefined(area, at, t.order, Zigzag(block, t.order, sc.al), sc.al, sc.ss, sc.se)
  }

  lemma PointFits(c: int, al: nat)
    requires -0x8000 <= c < 0x8000
    ensures -0x8000 <= PointAc(c, al) * Pow2(al) < 0x8000 && Abs(PointAc(c, al)) <= 0x8000
  {
    var p, q := Pow2(al), Abs(c) / Pow2(al);
    PointParts(c, al);
    hide Pow2;
    DivMul(Abs(c), p);
    MulNeg(q, p);
    assert PointAc(c, al) == if c >= 0 then q else -q;
  }

  lemma DivMul(c: nat, p: nat)
    requires p >= 1
    ensures 0 <= c / p * p <= c
  {
  }

  lemma ZigzagFits(block: seq<int>, order: seq<nat>, al: nat)
    requires IsOrder(order) && IsBlock(block)
    ensures FitsShort(Zigzag(block, order, al), al)
    ensures forall k :: 0 <= k < 64 ==> Abs(Zigzag(block, order, al)[k]) <= 0x8000
  {
    var w := Zigzag(block, order, al);
    forall k | 0 <= k < 64
      ensures -0x8000 <= w[k] * Pow2(al) < 0x8000 && Abs(w[k]) <= 0x8000
    {
      PointFits(block[order[k]], al);
    }
  }

  // One block of an MCU: its component within the scan, and which block of the coefficient arrays it is.
  datatype Visit = Visit(ci: nat, blk: nat)

  function Block(coefs: seq<int>, blk: nat): (b: seq<int>)
    requires 64 * blk + 64 <= |coefs|
    ensures |b| == 64
  {
    coefs[64 * blk..64 * blk + 64]
  }

  ghost predicate IsImage(coefs: seq<int>) {
    |coefs| % 64 == 0 && forall k :: 0 <= k < |coefs| ==> -0x8000 <= coefs[k] < 0x8000
  }

  ghost predicate GoodVisits(sc: Scan, visits: seq<Visit>, size: nat) {
    forall k :: 0 <= k < |visits| ==> visits[k].ci < |sc.comps| && 64 * visits[k].blk + 64 <= size
  }

  ghost predicate Distinct(visits: seq<Visit>) {
    forall i, j :: 0 <= i < j < |visits| ==> visits[i].blk != visits[j].blk
  }

  ghost function VisitsEffect(t: Tables, sc: Scan, area: seq<int>, coefs: seq<int>, visits: seq<Visit>): (r: seq<int>)
    requires GoodScan(t, sc) && GoodVisits(sc, visits, |coefs|) && |area| == |coefs|
    ensures |r| == |area|
    decreases |visits|
  {
    if visits == [] then area
    else
      var v := visits[0];
      VisitsEffect(t, sc, BlockEffect(t, sc, area, 64 * v.blk, Block(coefs, v.blk)), coefs, visits[1..])
  }

  ghost predicate AllReady(t: Tables, sc: Scan, area: seq<int>, coefs: seq<int>, visits: seq<Visit>)
    requires GoodScan(t, sc) && GoodVisits(sc, visits, |coefs|) && |area| == |coefs|
  {
    forall k :: 0 <= k < |visits| ==> Ready(t, sc, area, 64 * visits[k].blk, Block(coefs, visits[k].blk))
  }

  // A block's effect stays inside the block.
  lemma {:induction false} PlacedLocal(area: seq<int>, at: nat, order: seq<nat>, w: seq<int>, al: nat, ss: nat, k: nat, j: nat)
    requires IsOrder(order) && |w| == 64 && k <= 64 && at + 64 <= |area| && j < |area| && !(at <= j < at + 64)
    ensures Placed(area, at, order, w, al, ss, k)[j] == area[j]
  {
    hide Pow2, ToShort;
    if ss < k { PlacedLocal(area, at, order, w, al, ss, k - 1, j); }
  }

  lemma EffectLocal(t: Tables, sc: Scan, area: seq<int>, at: nat, block: seq<int>, j: nat)
    requires GoodScan(t, sc) && |block| == 64 && at + 64 <= |area| && j < |area| && !(at <= j < at + 64)
    ensures BlockEffect(t, sc, area, at, block)[j] == area[j]
  {
    hide Placed, Pow2, ToShort, Shift, SetBit;
    var w := Zigzag(block, t.order, sc.al);
    var dc := ToShort(Shift(block[0], sc.al) * Pow2(sc.al));
    PlacedLocal(area, at, t.order, w, sc.al, sc.ss, sc.se + 1, j);
    PlacedLocal(area[at := dc], at, t.order, w, 0, 1, sc.se + 1, j);
  }

  lemma StillReady(t: Tables, sc: Scan, area: seq<int>, coefs: seq<int>, visits: seq<Visit>)
    requires GoodScan(t, sc) && GoodVisits(sc, visits, |coefs|) && |area| == |coefs|
    requires visits != [] && Distinct(visits) && AllReady(t, sc, area, coefs, visits)
    ensures AllReady(t, sc, BlockEffect(t, sc, area, 64 * visits[0].blk, Block(coefs, visits[0].blk)), coefs, visits[1..])
  {
    hide BlockEffect, Pow2, Prior;
    var at0, b0, rest := 64 * visits[0].blk, Block(coefs, visits[0].blk), visits[1..];
    var next := BlockEffect(t, sc, area, at0, b0);
    forall k | 0 <= k < |rest|
      ensures Ready(t, sc, next, 64 * rest[k].blk, Block(coefs, rest[k].blk))
    {
      var at := 64 * rest[k].blk;
      assert rest[k] == visits[k + 1];
      forall j | at <= j < at + 64
        ensures next[j] == area[j]
      {
        EffectLocal(t, sc, area, at0, b0, j);
      }
      assert visits[0].blk != visits[k + 1].blk;
      assert Ready(t, sc, area, 64 * visits[k + 1].blk, Block(coefs, visits[k + 1].blk));
    }
  }

  lemma ShiftFits(c: int, al: nat)
    requires -0x8000 <= c < 0x8000
    ensures -0x8000 <= Shift(c, al) < 0x8000
  {
    var p := Pow2(al);
    hide Pow2;
    var q := c / p;
    assert c == q * p + c % p;
    if q < 0 && q < -0x8000 {
      MulLe(0x8001, -q, p);
      MulNeg(-q, p);
    } else if q >= 0x8000 {
      MulLe(0x8000, q, p);
    }
  }

  function Flat(segments: seq<seq<Visit>>): seq<Visit> {
    if segments == [] then [] else segments[0] + Flat(segments[1..])
  }

  // The segments from the i-th on, with restart markers numbered modulo 8 between them.
  ghost function Joined(parts: seq<seq<Byte>>, i: nat): seq<Byte>
    requires i < |parts|
    decreases |parts| - i
  {
    parts[i] + if i == |parts| - 1 then [] else [0xFF, 0xD0 + i % 8] + Joined(parts, i + 1)
  }

  ghost function Lead(parts: seq<seq<Byte>>, i: nat): seq<Byte>
    requires i <= |parts|
  {
    if i == 0 then [] else Lead(parts, i - 1) + parts[i - 1] + [0xFF, 0xD0 + (i - 1) % 8]
  }

  lemma {:induction false} LeadJoined(parts: seq<seq<Byte>>, i: nat)
    requires i < |parts|
    ensures Lead(parts, i) + Joined(parts, i) == Joined(parts, 0)
  {
    if i > 0 {
      LeadJoined(parts, i - 1);
      var m := [0xFF, 0xD0 + (i - 1) % 8];
      assert Lead(parts, i) + Joined(parts, i) == Lead(parts, i - 1) + (parts[i - 1] + (m + Joined(parts, i)));
    }
  }

  lemma {:induction false} LeadPrefix(parts: seq<seq<Byte>>, more: seq<seq<Byte>>, i: nat)
    requires i <= |parts|
    ensures Lead(parts, i) == Lead(parts + more, i)
  {
    if i > 0 { LeadPrefix(parts, more, i - 1); }
  }

  ghost predicate GoodSegments(sc: Scan, segments: seq<seq<Visit>>, size: nat) {
    segments != [] && forall i :: 0 <= i < |segments| ==> GoodVisits(sc, segments[i], size)
  }

  lemma {:induction false} EffectConcat(t: Tables, sc: Scan, area: seq<int>, coefs: seq<int>, a: seq<Visit>, b: seq<Visit>)
    requires GoodScan(t, sc) && GoodVisits(sc, a, |coefs|) && GoodVisits(sc, b, |coefs|) && |area| == |coefs|
    ensures GoodVisits(sc, a + b, |coefs|)
    ensures VisitsEffect(t, sc, area, coefs, a + b) == VisitsEffect(t, sc, VisitsEffect(t, sc, area, coefs, a), coefs, b)
    decreases |a|
  {
    hide BlockEffect, GoodScan;
    if a == [] {
      assert a + b == b;
    } else {
      assert (a + b)[1..] == a[1..] + b;
      EffectConcat(t, sc, BlockEffect(t, sc, area, 64 * a[0].blk, Block(coefs, a[0].blk)), coefs, a[1..], b);
    }
  }

  lemma {:induction false} ReadyAfter(t: Tables, sc: Scan, area: seq<int>, coefs: seq<int>, a: seq<Visit>, b: seq<Visit>)
    requires GoodScan(t, sc) && GoodVisits(sc, a, |coefs|) && GoodVisits(sc, b, |coefs|) && |area| == |coefs|
    requires GoodVisits(sc, a + b, |coefs|) && Distinct(a + b) && AllReady(t, sc, area, coefs, a + b)
    ensures AllReady(t, sc, VisitsEffect(t, sc, area, coefs, a), coefs, b)
    decreases |a|
  {
    hide BlockEffect, GoodScan, Ready;
    if a == [] {
      assert a + b == b;
    } else {
      assert (a + b)[1..] == a[1..] + b && (a + b)[0] == a[0];
      StillReady(t, sc, area, coefs, a + b);
      ReadyAfter(t, sc, BlockEffect(t, sc, area, 64 * a[0].blk, Block(coefs, a[0].blk)), coefs, a[1..], b);
    }
  }

  lemma {:induction false} FlatGood(sc: Scan, segments: seq<seq<Visit>>, size: nat)
    requires forall i :: 0 <= i < |segments| ==> GoodVisits(sc, segments[i], size)
    ensures GoodVisits(sc, Flat(segments), size)
  {
    if segments != [] { FlatGood(sc, segments[1..], size); }
  }

  lemma FlatFrom(segments: seq<seq<Visit>>, i: nat)
    requires i < |segments|
    ensures Flat(segments[i..]) == segments[i] + Flat(segments[i + 1..])
  {
    assert segments[i..][1..] == segments[i + 1..];
  }

  lemma DistinctParts(a: seq<Visit>, b: seq<Visit>)
    requires Distinct(a + b)
    ensures Distinct(a) && Distinct(b)
  {
    forall i, j | 0 <= i < j < |b|
      ensures b[i].blk != b[j].blk
    {
      assert (a + b)[|a| + i] == b[i] && (a + b)[|a| + j] == b[j];
    }
    forall i, j | 0 <= i < j < |a|
      ensures a[i].blk != a[j].blk
    {
      assert (a + b)[i] == a[i] && (a + b)[j] == a[j];
    }
  }

  lemma ReadyPrefix(t: Tables, sc: Scan, area: seq<int>, coefs: seq<int>, a: seq<Visit>, b: seq<Visit>)
    requires GoodScan(t, sc) && GoodVisits(sc, a, |coefs|) && GoodVisits(sc, a + b, |coefs|) && |area| == |coefs|
    requires AllReady(t, sc, area, coefs, a + b)
    ensures AllReady(t, sc, area, coefs, a)
  {
    hide Ready, GoodScan;
    forall k | 0 <= k < |a|
      ensures Ready(t, sc, area, 64 * a[k].blk, Block(coefs, a[k].blk))
    {
      assert (a + b)[k] == a[k];
    }
  }

  lemma EffectNone(t: Tables, sc: Scan, area: seq<int>, coefs: seq<int>)
    requires GoodScan(t, sc) && |area| == |coefs|
    ensures GoodVisits(sc, [], |coefs|) && VisitsEffect(t, sc, area, coefs, []) == area
  {
  }

  function First(m: nat): (r: set<nat>)
    ensures |r| == m && forall j :: j in r <==> 0 <= j < m
  {
    if m == 0 then {} else First(m - 1) + {m - 1}
  }

  function Taken(order: seq<nat>, m: nat): (r: set<nat>)
    requires m <= |order|
    ensures forall j :: j in r <==> exists k :: 0 <= k < m && order[k] == j
  {
    if m == 0 then {} else Taken(order, m - 1) + {order[m - 1]}
  }

  lemma {:induction false} TakenSize(order: seq<nat>, m: nat)
    requires IsOrder(order) && m <= 64
    ensures |Taken(order, m)| == m
  {
    if m > 0 {
      TakenSize(order, m - 1);
      assert order[m - 1] !in Taken(order, m - 1);
    }
  }

  lemma SameSize(a: set<nat>, b: set<nat>)
    requires a <= b && |a| == |b|
    ensures a == b
  {
    assert b == a + (b - a);
    assert |b - a| == 0;
  }

  // The zigzag order reaches every place of a block.
  lemma OrderOnto(order: seq<nat>, j: nat) returns (k: nat)
    requires IsOrder(order) && j < 64
    ensures k < 64 && order[k] == j
  {
    hide First, Taken;
    TakenSize(order, 64);
    SameSize(Taken(order, 64), First(64));
    assert j in Taken(order, 64);
    k :| 0 <= k < 64 && order[k] == j;
  }
}
