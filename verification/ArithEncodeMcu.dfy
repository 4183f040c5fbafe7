// MCU encoding: encode_mcu and its progressive relatives.
module ArithEncodeMcu {
  import opened Numbers
  import opened ArithInterval
  import opened ArithEncoder
  import opened ArithModel

  // The category: a one for each doubling of m, then a zero.
  method EncodeCategory(e: Encoder, start: nat, value: nat, m0: nat) returns (m: nat, st: nat)
    requires e.Traced() && start + Steps(value / 2) < e.stats.Length
    modifies e, e.stats
    ensures e.Traced() && e.Others() == old(e.Others())
    ensures e.log == old(e.log) + Category(start, value / 2)
    ensures m == Top(m0, value / 2) && st == start + Steps(value / 2)
  {
    hide Encoder.Traced;
    var v2: nat := value / 2;
    m, st := m0, start;
    while v2 != 0
      invariant e.Traced() && e.Others() == old(e.Others())
      invariant st + Steps(v2) == start + Steps(value / 2) && Top(m, v2) == Top(m0, value / 2)
      invariant e.log + Category(st, v2) == old(e.log) + Category(start, value / 2)
      decreases v2
    {
      e.Put(st, 1);
      m := m * 2;
      st := st + 1;
      v2 := v2 / 2;
    }
    e.Put(st, 0);
  }

  // The bits of v below its leading one.
  method EncodePattern(e: Encoder, st: nat, m0: nat, v: nat)
    requires e.Traced() && st < e.stats.Length
    modifies e, e.stats
    ensures e.Traced() && e.Others() == old(e.Others())
    ensures e.log == old(e.log) + Pattern(st, m0 / 2, v)
  {
    hide Encoder.Traced;
    var m: nat := m0 / 2;
    while m != 0
      invariant e.Traced() && e.Others() == old(e.Others())
      invariant e.log + Pattern(st, m, v) == old(e.log) + Pattern(st, m0 / 2, v)
      decreases m
    {
      e.Put(st, v / m % 2);
      m := m / 2;
    }
  }

  // The rest of Figures F.8 and F.9, after the first categories of the magnitude.
  method EncodeTail(e: Encoder, x: nat, value: nat, m0: nat, v: nat) returns (m: nat)
    requires e.Traced() && x + Steps(value / 2) + 14 < e.stats.Length
    modifies e, e.stats
    ensures e.Traced() && e.Others() == old(e.Others())
    ensures m == Top(m0, value / 2) && e.log == old(e.log) + Tail(x, value / 2, m, v)
  {
    hide Encoder.Traced, Steps, Category, Pattern, Top;
    var st;
    m, st := EncodeCategory(e, x, value, m0);
    st := st + 14;
    EncodePattern(e, st, m, v);
  }

  // Figures F.8 and F.9 for a DC difference; m is the magnitude category.
  method EncodeDcMagnitude(e: Encoder, st: nat, x1: nat, v: nat) returns (m: nat)
    requires e.Traced() && st < e.stats.Length && x1 + Steps(v / 2) + 14 < e.stats.Length
    modifies e, e.stats
    ensures e.Traced() && e.Others() == old(e.Others())
    ensures e.log == old(e.log) + DcMagnitude(st, x1, v)
    ensures m == if v == 0 then 0 else Msb(v)
  {
    hide Encoder.Traced, Steps, Tail, Top;
    m := 0;
    if v != 0 {
      e.Put(st, 1);
      m := EncodeTail(e, x1, v, 1, v);
    } else {
      e.Put(st, 0);
    }
  }

  // Figures F.8 and F.9 for an AC coefficient.
  method EncodeAcMagnitude(e: Encoder, st: nat, x2: nat, v: nat)
    requires e.Traced() && st < e.stats.Length && x2 + Steps(v / 2 / 2) + 14 < e.stats.Length
    modifies e, e.stats
    ensures e.Traced() && e.Others() == old(e.Others())
    ensures e.log == old(e.log) + AcMagnitude(st, x2, v)
  {
    hide Encoder.Traced, Steps, Tail;
    if v != 0 {
      e.Put(st, 1);
      var v2 := v / 2;
      if v2 != 0 {
        e.Put(st, 1);
        var _ := EncodeTail(e, x2, v2, 2, v);
      } else {
        e.Put(st, 0);
      }
    } else {
      e.Put(st, 0);
    }
  }

  // Sections F.1.4.1 & F.1.4.4.1: encoding of DC coefficients; value is the point-transformed coefficient.
  method EncodeDc(e: Encoder, tbl: nat, ci: nat, dcL: nat, dcU: nat, value: int)
    requires e.Traced() && tbl < NUM_ARITH_TBLS
    requires ci < |e.lastDcVal| == |e.dcContext| && e.dcContext[ci] <= 16
    requires Abs(value - e.lastDcVal[ci]) < 0x10000
    modifies e, e.stats
    ensures e.Traced() && e.before == old(e.before) && e.origin == old(e.origin)
    ensures var diff := value - old(e.lastDcVal[ci]);
      && e.log == old(e.log) + DcDecisions(DcStats(tbl), DcStats(tbl) + old(e.dcContext[ci]), diff)
      && e.dcContext == old(e.dcContext)[ci := NextContext(diff, dcL, dcU)]
    ensures e.lastDcVal == old(e.lastDcVal)[ci := value]
  {
    hide Encoder.Traced, Steps, DcMagnitude, Msb, Pow2;
    var st := DcStats(tbl) + e.dcContext[ci];
    var v := value - e.lastDcVal[ci];
    if v == 0 {
      e.Put(st, 0);
      e.SetDc(ci, value, 0);
      return;
    }
    e.Put(st, 1);
    var context;
    if v > 0 {
      e.Put(st + 1, 0);
      st := st + 2;
      context := 4;
    } else {
      v := -v;
      e.Put(st + 1, 1);
      st := st + 3;
      context := 8;
    }
    v := v - 1;
    StepsBound16(v);
    var m := EncodeDcMagnitude(e, st, DcStats(tbl) + 20, v);
    if m < Pow2(dcL) / 2 {
      context := 0;
    } else if m > Pow2(dcU) / 2 {
      context := context + 8;
    }
    e.SetDc(ci, value, context);
  }

  // The index one past the last nonzero coefficient of the band.
  method FindEob(block: seq<int>, order: seq<nat>, se: nat, al: nat) returns (ke: nat)
    requires IsOrder(order) && |block| == 64 && se < 64
    ensures ke == EobIndex(Zigzag(block, order, al), se)
  {
    ke := se;
    ghost var w := Zigzag(block, order, al);
    while ke > 0
      invariant ke <= se && EobIndex(w, ke) == EobIndex(w, se)
    {
      var v := block[order[ke]];
      if v >= 0 {
        if v / Pow2(al) != 0 { break; }
      } else {
        v := -v;
        if v / Pow2(al) != 0 { break; }
      }
      ke := ke - 1;
    }
  }

  // Zero coefficients of a run; the last one looked at is not zero.
  method EncodeRun(e: Encoder, base: nat, kx: int, block: seq<int>, order: seq<nat>, al: nat, k0: nat, ghost ke: nat, ghost se: nat)
    returns (k: nat)
    requires e.Traced() && base + 192 <= e.stats.Length && IsOrder(order) && |block| == 64
    requires 1 <= k0 <= ke < 64 && Zigzag(block, order, al)[ke] != 0
    modifies e, e.stats
    ensures e.Traced() && e.Others() == old(e.Others())
    ensures var w := Zigzag(block, order, al);
      && k0 <= k <= ke && w[k] != 0
      && e.log + AcRun(base, w, kx, k, ke, se) == old(e.log) + AcRun(base, w, kx, k0, ke, se)
  {
    hide Encoder.Traced, CoefDecisions, AcDecisions, Pow2;
    ghost var w := Zigzag(block, order, al);
    k := k0;
    while Abs(block[order[k]]) / Pow2(al) == 0
      invariant e.Traced() && e.Others() == old(e.Others()) && k0 <= k <= ke
      invariant e.log + AcRun(base, w, kx, k, ke, se) == old(e.log) + AcRun(base, w, kx, k0, ke, se)
      decreases ke - k
    {
      e.Put(base + 3 * (k - 1) + 1, 0);
      k := k + 1;
    }
  }

  method EncodeCoef(e: Encoder, st: nat, x2: nat, coef: int, al: nat)
    requires e.Traced() && st + 2 < e.stats.Length
    requires -0x8000 <= coef < 0x8000 && PointAc(coef, al) != 0
    requires x2 + 30 < e.stats.Length
    modifies e, e.stats
    ensures e.Traced() && e.Others() == old(e.Others())
    ensures e.log == old(e.log) + CoefDecisions(st, x2, PointAc(coef, al))
  {
    hide Encoder.Traced, Steps, AcMagnitude, Pow2;
    PointParts(coef, al);
    var v := coef;
    e.Put(st + 1, 1);
    if v >= 0 {
      e.Put(FIXED_BIN, 0);
    } else {
      v := -v;
      e.Put(FIXED_BIN, 1);
    }
    v := v / Pow2(al);
    StepsBound16(v - 1);
    EncodeAcMagnitude(e, st + 2, x2, v - 1);
  }

  // Sections F.1.4.2 & F.1.4.4.2: encoding of AC coefficients ss..se.
  method EncodeAc(e: Encoder, tbl: nat, kx: int, block: seq<int>, order: seq<nat>, ss: nat, se: nat, al: nat)
    requires e.Traced() && tbl < NUM_ARITH_TBLS
    requires IsOrder(order) && IsBlock(block) && 1 <= ss <= 64 && se < 64
    modifies e, e.stats
    ensures e.Traced() && e.Others() == old(e.Others())
    ensures var w := Zigzag(block, order, al);
      e.log == old(e.log) + AcDecisions(AcStats(tbl), w, kx, ss, EobIndex(w, se), se)
  {
    hide Encoder.Traced, CoefDecisions, Pow2, PointAc;
    ghost var w := Zigzag(block, order, al);
    var ke := FindEob(block, order, se, al);
    var k := ss;
    while k <= ke
      invariant e.Traced() && e.Others() == old(e.Others()) && 1 <= k <= 64
      invariant e.log + AcDecisions(AcStats(tbl), w, kx, k, ke, se)
        == old(e.log) + AcDecisions(AcStats(tbl), w, kx, ss, ke, se)
    {
      ghost var log0, k0 := e.log, k;
      e.Put(AcStats(tbl) + 3 * (k - 1), 0);
      k := EncodeRun(e, AcStats(tbl), kx, block, order, al, k, ke, se);
      assert e.log + AcRun(AcStats(tbl), w, kx, k, ke, se) == log0 + AcDecisions(AcStats(tbl), w, kx, k0, ke, se);
      EncodeCoef(e, AcStats(tbl) + 3 * (k - 1), X2(AcStats(tbl), k, kx), block[order[k]], al);
      k := k + 1;
    }
    if k <= se {
      e.Put(AcStats(tbl) + 3 * (k - 1), 1);
    }
  }

  // Section G.1.3.3: refinement of AC coefficients ss..se; ah == al + 1.
  method EncodeAcRefine(e: Encoder, tbl: nat, block: seq<int>, order: seq<nat>, ss: nat, se: nat, ah: nat, al: nat)
    requires e.Traced() && tbl < NUM_ARITH_TBLS
    requires IsOrder(order) && IsBlock(block) && 1 <= ss <= 64 && se < 64
    modifies e, e.stats
    ensures e.Traced() && e.Others() == old(e.Others())
    ensures var a := Zigzag(block, order, al);
      var ke := EobIndex(a, se);
      e.log == old(e.log) + RefineDecisions(AcStats(tbl), a, EobIndex(Zigzag(block, order, ah), ke), ss, ke, se)
  {
    hide Encoder.Traced, Pow2, PointAc, RefineRun;
    ghost var a := Zigzag(block, order, al);
    var ke := FindEob(block, order, se, al);
    var kex := FindEob(block, order, ke, ah);
    var k := ss;
    while k <= ke
      invariant e.Traced() && e.Others() == old(e.Others()) && 1 <= k <= 64
      invariant e.log + RefineDecisions(AcStats(tbl), a, kex, k, ke, se)
        == old(e.log) + RefineDecisions(AcStats(tbl), a, kex, ss, ke, se)
    {
      ghost var log0, k0 := e.log, k;
      if k > kex {
        e.Put(AcStats(tbl) + 3 * (k - 1), 0);
      }
      assert e.log + RefineRun(AcStats(tbl), a, kex, k, ke, se) == log0 + RefineDecisions(AcStats(tbl), a, kex, k, ke, se);
      k := EncodeRefineRun(e, AcStats(tbl), block, order, al, k, kex, ke, se);
    }
    if k <= se {
      e.Put(AcStats(tbl) + 3 * (k - 1), 1);
    }
  }

  // The inner loop: zeros up to and including the next nonzero coefficient.
  method EncodeRefineRun(e: Encoder, base: nat, block: seq<int>, order: seq<nat>, al: nat, k0: nat,
                         ghost kex: nat, ghost ke: nat, ghost se: nat)
    returns (k: nat)
    requires e.Traced() && base + 192 <= e.stats.Length && IsOrder(order) && |block| == 64
    requires 1 <= k0 <= ke < 64 && Zigzag(block, order, al)[ke] != 0
    modifies e, e.stats
    ensures e.Traced() && e.Others() == old(e.Others())
    ensures var a := Zigzag(block, order, al);
      && k0 < k <= ke + 1
      && e.log + RefineDecisions(base, a, kex, k, ke, se) == old(e.log) + RefineRun(base, a, kex, k0, ke, se)
  {
    hide Encoder.Traced, RefineDecisions, Pow2;
    ghost var a := Zigzag(block, order, al);
    k := k0;
    while true
      invariant e.Traced() && e.Others() == old(e.Others()) && k0 <= k <= ke
      invariant e.log + RefineRun(base, a, kex, k, ke, se) == old(e.log) + RefineRun(base, a, kex, k0, ke, se)
      decreases ke - k
    {
      var st := base + 3 * (k - 1);
      var c := block[order[k]];
      PointParts(c, al);
      var v := Abs(c) / Pow2(al);
      if v != 0 {
        if v / 2 != 0 {
          e.Put(st + 2, v % 2);
        } else {
          e.Put(st + 1, 1);
          e.Put(FIXED_BIN, if c >= 0 then 0 else 1);
        }
        k := k + 1;
        return;
      }
      e.Put(st + 1, 0);
      k := k + 1;
    }
  }
}
