// Decoding a block twice is decoding it once: what an abandoned attempt at an MCU leaves behind does no harm.
module HuffRetry {
  import opened Numbers
  import opened ArithModel
  import opened Scans
  import opened HuffWrites
  import opened HuffBlock

  // ----- one coefficient -----

  // What decoding a block makes of the coefficient i in zigzag order, c having been there.
  function EffectOn(t: Tables, sc: Scan, block: seq<int>, i: nat, c: int): int
    requires IsOrder(t.order) && |block| == 64 && i < 64
  {
    var w := Zigzag(block, t.order, sc.al)[i];
    match sc.mode
    case Sequential => if i == 0 then ToShort(Shift(block[0], sc.al) * Pow2(sc.al))
                       else if i <= sc.se && w != 0 then ToShort(w * Pow2(0)) else c
    case DcFirst => if i == 0 then ToShort(Shift(block[0], sc.al) * Pow2(sc.al)) else c
    case DcRefine => if i == 0 && Shift(block[0], sc.al) % 2 == 1 then SetBit(c, sc.al) else c
    case _ => if sc.ss <= i <= sc.se && w != 0 then ToShort(w * Pow2(sc.al)) else c
  }

  lemma EffectAt(t: Tables, sc: Scan, area: seq<int>, at: nat, block: seq<int>, i: nat)
    requires GoodScan(t, sc) && |block| == 64 && at + 64 <= |area| && i < 64
    ensures BlockEffect(t, sc, area, at, block)[at + t.order[i]] == EffectOn(t, sc, block, i, area[at + t.order[i]])
  {
    hide Pow2, ToShort, Shift, SetBit, Zigzag, Placed;
    var w := Zigzag(block, t.order, sc.al);
    var dc := ToShort(Shift(block[0], sc.al) * Pow2(sc.al));
    assert i > 0 ==> t.order[0] != t.order[i];
    match sc.mode {
      case Sequential => PlacedAt(area[at := dc], at, t.order, w, 0, 1, sc.se + 1, i);
      case AcFirst => PlacedAt(area, at, t.order, w, sc.al, sc.ss, sc.se + 1, i);
      case AcRefine => PlacedAt(area, at, t.order, w, sc.al, sc.ss, sc.se + 1, i);
      case _ =>
    }
  }

  // Setting a bit by |= a second time changes nothing.
  lemma SetTwice(c: int, al: nat)
    requires al <= 13
    ensures SetBit(SetBit(c, al), al) == SetBit(c, al)
  {
    MendTwice(SetsBit(al), c);
  }

  lemma EffectTwice(t: Tables, sc: Scan, block: seq<int>, i: nat, c: int)
    requires GoodHuff(t, sc) && |block| == 64 && i < 64
    ensures EffectOn(t, sc, block, i, EffectOn(t, sc, block, i, c)) == EffectOn(t, sc, block, i, c)
  {
    hide ToShort, Shift, SetBit, Zigzag, Pow2;
    SetTwice(c, sc.al);
  }

  // ----- one block -----

  lemma Inside(order: seq<nat>, at: nat, j: nat) returns (i: nat)
    requires IsOrder(order) && at <= j < at + 64
    ensures i < 64 && at + order[i] == j
  {
    i := OrderOnto(order, j - at);
  }

  // Whatever part of the block was done before, doing it again completes it.
  lemma BlockAgain(t: Tables, sc: Scan, area: seq<int>, now: seq<int>, at: nat, block: seq<int>, j: nat)
    requires GoodHuff(t, sc) && |block| == 64 && at + 64 <= |area| == |now| && at <= j < at + 64
    requires now[j] == area[j] || now[j] == BlockEffect(t, sc, area, at, block)[j]
    ensures BlockEffect(t, sc, now, at, block)[j] == BlockEffect(t, sc, area, at, block)[j]
  {
    hide BlockEffect, EffectOn;
    var i := Inside(t.order, at, j);
    EffectAt(t, sc, area, at, block, i);
    EffectAt(t, sc, now, at, block, i);
    EffectTwice(t, sc, block, i, area[j]);
  }

  // ----- the blocks of an MCU -----

  // Coefficient j belongs to none of the blocks.
  ghost predicate Apart(visits: seq<Visit>, j: nat) {
    forall k :: 0 <= k < |visits| ==> !(64 * visits[k].blk <= j < 64 * visits[k].blk + 64)
  }

  lemma {:induction false} EffectsApart(t: Tables, sc: Scan, area: seq<int>, coefs: seq<int>, visits: seq<Visit>, j: nat)
    requires GoodScan(t, sc) && GoodVisits(sc, visits, |coefs|) && |area| == |coefs| && j < |area| && Apart(visits, j)
    ensures VisitsEffect(t, sc, area, coefs, visits)[j] == area[j]
    decreases |visits|
  {
    hide BlockEffect, GoodScan;
    if visits != [] {
      var at, block := 64 * visits[0].blk, Block(coefs, visits[0].blk);
      EffectLocal(t, sc, area, at, block, j);
      EffectsApart(t, sc, BlockEffect(t, sc, area, at, block), coefs, visits[1..], j);
    }
  }

  lemma RestApart(visits: seq<Visit>, j: nat)
    requires visits != [] && Distinct(visits) && 64 * visits[0].blk <= j < 64 * visits[0].blk + 64
    ensures Apart(visits[1..], j)
  {
    forall k | 0 <= k < |visits[1..]|
      ensures visits[1..][k].blk != visits[0].blk
    {
      assert visits[1..][k] == visits[k + 1];
    }
  }

  // A second attempt makes up for everything the first one left undone.
  lemma {:induction false} EffectsAgain(t: Tables, sc: Scan, area: seq<int>, now: seq<int>, coefs: seq<int>, visits: seq<Visit>)
    requires GoodHuff(t, sc) && GoodVisits(sc, visits, |coefs|) && |area| == |coefs| && Distinct(visits)
    requires Between(area, now, VisitsEffect(t, sc, area, coefs, visits))
    ensures VisitsEffect(t, sc, now, coefs, visits) == VisitsEffect(t, sc, area, coefs, visits)
    decreases |visits|
  {
    hide BlockEffect, GoodScan, Apart, Distinct;
    if visits == [] {
      assert now == area;
    } else {
      var at, block, rest := 64 * visits[0].blk, Block(coefs, visits[0].blk), visits[1..];
      var area1, now1 := BlockEffect(t, sc, area, at, block), BlockEffect(t, sc, now, at, block);
      var final := VisitsEffect(t, sc, area1, coefs, rest);
      forall j | 0 <= j < |area|
        ensures now1[j] == area1[j] || now1[j] == final[j]
      {
        if at <= j < at + 64 { RestApart(visits, j); }
        AgainAt(t, sc, area, now, coefs, at, block, rest, j);
      }
      RestDistinct(visits);
      EffectsAgain(t, sc, area1, now1, coefs, rest);
    }
  }

  lemma RestDistinct(visits: seq<Visit>)
    requires visits != [] && Distinct(visits)
    ensures Distinct(visits[1..])
  {
    assert visits == visits[..1] + visits[1..];
    DistinctParts(visits[..1], visits[1..]);
  }

  lemma AgainAt(t: Tables, sc: Scan, area: seq<int>, now: seq<int>, coefs: seq<int>, at: nat, block: seq<int>, rest: seq<Visit>, j: nat)
    requires GoodHuff(t, sc) && GoodVisits(sc, rest, |coefs|) && |area| == |coefs| == |now| && j < |area| && |block| == 64 && at + 64 <= |area|
    requires at <= j < at + 64 ==> Apart(rest, j)
    requires now[j] == area[j] || now[j] == VisitsEffect(t, sc, BlockEffect(t, sc, area, at, block), coefs, rest)[j]
    ensures BlockEffect(t, sc, now, at, block)[j] == BlockEffect(t, sc, area, at, block)[j]
      || BlockEffect(t, sc, now, at, block)[j] == VisitsEffect(t, sc, BlockEffect(t, sc, area, at, block), coefs, rest)[j]
  {
    hide BlockEffect, GoodScan, Apart, GoodVisits, VisitsEffect;
    if at <= j < at + 64 {
      EffectsApart(t, sc, BlockEffect(t, sc, area, at, block), coefs, rest, j);
      BlockAgain(t, sc, area, now, at, block, j);
    } else {
      EffectLocal(t, sc, area, at, block, j);
      EffectLocal(t, sc, now, at, block, j);
    }
  }

  // An attempt that got through the blocks a and into the next one is on the way to the whole MCU.
  lemma PartWay(t: Tables, sc: Scan, area0: seq<int>, area: seq<int>, coefs: seq<int>, a: seq<Visit>, rest: seq<Visit>)
    requires GoodHuff(t, sc) && GoodVisits(sc, a, |coefs|) && GoodVisits(sc, rest, |coefs|) && |area0| == |coefs| && rest != []
    requires Distinct(a + rest)
    requires var mid := VisitsEffect(t, sc, area0, coefs, a);
      Between(mid, area, BlockEffect(t, sc, mid, 64 * rest[0].blk, Block(coefs, rest[0].blk)))
    ensures GoodVisits(sc, a + rest, |coefs|) && Between(area0, area, VisitsEffect(t, sc, area0, coefs, a + rest))
  {
    hide BlockEffect, GoodScan, Apart, Distinct;
    EffectConcat(t, sc, area0, coefs, a, rest);
    forall j | 0 <= j < |area|
      ensures area[j] == area0[j] || area[j] == VisitsEffect(t, sc, area0, coefs, a + rest)[j]
    {
      PartWayAt(t, sc, area0, area, coefs, a, rest, j);
    }
  }

  lemma PartWayAt(t: Tables, sc: Scan, area0: seq<int>, area: seq<int>, coefs: seq<int>, a: seq<Visit>, rest: seq<Visit>, j: nat)
    requires GoodHuff(t, sc) && GoodVisits(sc, a, |coefs|) && GoodVisits(sc, rest, |coefs|) && |area0| == |coefs| == |area| && rest != []
    requires Distinct(a + rest) && j < |area|
    requires var mid := VisitsEffect(t, sc, area0, coefs, a);
      area[j] == mid[j] || area[j] == BlockEffect(t, sc, mid, 64 * rest[0].blk, Block(coefs, rest[0].blk))[j]
    ensures area[j] == area0[j]
      || area[j] == VisitsEffect(t, sc, VisitsEffect(t, sc, area0, coefs, a), coefs, rest)[j]
  {
    hide BlockEffect, GoodScan, Distinct;
    var mid, at, block := VisitsEffect(t, sc, area0, coefs, a), 64 * rest[0].blk, Block(coefs, rest[0].blk);
    DistinctParts(a, rest);
    if Apart(a, j) {
      EffectsApart(t, sc, area0, coefs, a, j);
      if at <= j < at + 64 {
        RestApart(rest, j);
        EffectsApart(t, sc, BlockEffect(t, sc, mid, at, block), coefs, rest[1..], j);
      } else {
        EffectLocal(t, sc, mid, at, block, j);
      }
    } else {
      FirstApart(a, rest, j);
      EffectsApart(t, sc, mid, coefs, rest, j);
      EffectLocal(t, sc, mid, at, block, j);
    }
  }

  lemma FirstApart(a: seq<Visit>, rest: seq<Visit>, j: nat)
    requires Distinct(a + rest) && !Apart(a, j)
    ensures Apart(rest, j)
  {
    var k :| 0 <= k < |a| && 64 * a[k].blk <= j < 64 * a[k].blk + 64;
    forall m | 0 <= m < |rest|
      ensures rest[m].blk != a[k].blk
    {
      assert (a + rest)[k] == a[k] && (a + rest)[|a| + m] == rest[m];
    }
  }
}
