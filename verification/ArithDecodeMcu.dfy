// MCU decoding: decode_mcu and its progressive relatives.
module ArithDecodeMcu {
  import opened Numbers
  import opened ArithInterval
  import opened ArithDecoder
  import opened ArithModel

  // BadCode is the warning JWRN_ARITH_BAD_CODE; Dry is the error JERR_CANT_SUSPEND.
  datatype Status = Done | BadCode | Dry

  lemma {:induction false} TopGrows(m: nat, h: nat)
    ensures Top(m, h) >= m
    decreases h
  {
    if h > 0 { TopGrows(m * 2, h / 2); }
  }

  // Figure F.23: double m for each one bit of the category, giving up at 2^15.
  method DecodeCategory(d: Decoder, start: nat, m0: nat, ghost j0: nat, ghost h: nat, ghost rest: seq<Decision>)
    returns (status: Status, m: nat, st: nat)
    requires d.Valid() && j0 < 15 && m0 == Pow2(j0) && start + 15 - j0 <= d.stats.Length
    modifies d, d.stats
    ensures status == Done ==> d.Valid() && d.Others() == old(d.Others())
    ensures status == Done ==> start <= st <= start + 14 - j0 && m == Pow2(j0 + st - start)
    ensures old(d.InSync(Category(start, h) + rest)) ==>
      && status != Dry && (status == Done <==> Top(m0, h) < 0x8000)
      && (status == Done ==> m == Top(m0, h) && st == start + Steps(h) && d.InSync(rest))
  {
    hide Decoder.Valid, Decoder.InSync, Pow2;
    Pow2Small();
    m, st := m0, start;
    ghost var j, g, sync := j0, h, d.InSync(Category(start, h) + rest);
    ghost var goal := Category(start, h) + rest;
    var ok, bit := d.ReadBit(st, goal);
    if !ok {
      return Dry, m, st;
    }
    assert goal[1..] == if g == 0 then rest else Category(st + 1, g / 2) + rest;
    while bit == 1
      invariant d.Valid() && d.Others() == old(d.Others())
      invariant j < 15 && st == start + j - j0 && m == Pow2(j)
      invariant sync ==> Top(m, g) == Top(m0, h) && st + Steps(g) == start + Steps(h)
      invariant sync ==> (bit == 1 <==> g != 0)
      invariant sync ==> d.InSync(if g == 0 then rest else Category(st + 1, g / 2) + rest)
      decreases 15 - j
    {
      Pow2Next(j);
      TopGrows(m * 2, g / 2);
      m := m * 2;
      if m == 0x8000 {
        return BadCode, m, st;
      }
      st := st + 1;
      j := j + 1;
      g := g / 2;
      goal := Category(st, g) + rest;
      ok, bit := d.ReadBit(st, goal);
      if !ok {
        return Dry, m, st;
      }
      assert goal[1..] == if g == 0 then rest else Category(st + 1, g / 2) + rest;
    }
    Pow2Less(j, 15);
    return Done, m, st;
  }

  lemma Pow2Small()
    ensures Pow2(0) == 1 && Pow2(1) == 2 && Pow2(15) == 0x8000
  {
    assert Pow2(8) == 0x100;
    Pow2Plus(8, 7);
  }

  lemma {:induction false} Pow2Less(i: nat, j: nat)
    requires i < j
    ensures Pow2(i) < Pow2(j)
    decreases j
  {
    if i < j - 1 { Pow2Less(i, j - 1); }
  }

  // Doubling 2^j for j < 15 reaches 0x8000 exactly at j = 14.
  lemma Pow2Next(j: nat)
    requires j < 15
    ensures Pow2(j + 1) == Pow2(j) * 2 && (Pow2(j + 1) == 0x8000 <==> j == 14)
  {
    Pow2Small();
    if j < 14 { Pow2Less(j + 1, 15); }
  }

  lemma ModHalf(v: nat, n: nat)
    requires n > 0
    ensures v % (2 * n) == v % n + n * (v / n % 2)
  {
    var q := v / n;
    assert v == n * q + v % n;
    var r := v % n + n * (q % 2);
    assert q == 2 * (q / 2) + q % 2;
    HalfProduct(n, q);
    assert v == (2 * n) * (q / 2) + r;
    ModUnique(v, 2 * n, q / 2, r);
  }

  lemma HalfProduct(n: nat, q: nat)
    ensures n * q == (2 * n) * (q / 2) + n * (q % 2)
  {
    var k, b := q / 2, q % 2;
    assert q == 2 * k + b;
    assert n * (2 * k + b) == 2 * n * k + n * b;
  }

  lemma ModUnique(v: nat, d: nat, q: nat, r: nat)
    requires v == d * q + r && r < d
    ensures v % d == r && v / d == q
  {
    var q', r' := v / d, v % d;
    assert v == d * q' + r';
    if q' < q {
      MulLe(q' + 1, q, d);
    } else if q < q' {
      MulLe(q + 1, q', d);
    }
  }

  // m is the most significant bit of v.
  ghost predicate Leads(m: nat, v: nat) {
    m <= v < 2 * m || m == v == 0
  }

  lemma {:induction false} MsbLeads(v: nat)
    requires v > 0
    ensures Leads(Msb(v), v)
    ensures Msb(v) < 0x8000 <==> v < 0x8000
    ensures Msb(v) == Pow2(Steps(v / 2))
  {
    TopLeads(1, v / 2, v);
    TopPow2(1, v / 2);
    Pow2Small();
    if Steps(v / 2) < 15 {
      Pow2Less(Steps(v / 2), 15);
      Pow2Next(Steps(v / 2));
      if Steps(v / 2) < 14 { Pow2Less(Steps(v / 2) + 1, 15); }
    } else if Steps(v / 2) > 15 {
      Pow2Less(15, Steps(v / 2));
    }
  }

  lemma {:induction false} TopPow2(m: nat, h: nat)
    ensures Top(m, h) == m * Pow2(Steps(h))
    decreases h
  {
    if h > 0 {
      TopPow2(m * 2, h / 2);
      MulShift(m, Pow2(Steps(h / 2)));
    }
  }

  lemma {:induction false} TopLeads(m: nat, h: nat, v: nat)
    requires 0 < m <= v && v / (2 * m) == h
    ensures Leads(Top(m, h), v)
    decreases h
  {
    hide Pow2, Steps;
    if h > 0 {
      DivTwice(v, 2 * m);
      TopLeads(m * 2, h / 2, v);
    }
  }

  lemma DivTwice(v: nat, d: nat)
    requires d > 0
    ensures v / (2 * d) == v / d / 2 && (v / d > 0 ==> v >= d)
  {
    hide Pow2;
    var q, r := v / d, v % d;
    assert v == d * q + r;
    HalfProduct(d, q);
    OneOrNone(d, q % 2, r);
    ModUnique(v, 2 * d, q / 2, d * (q % 2) + r);
  }

  lemma OneOrNone(d: nat, b: nat, r: nat)
    requires b < 2 && r < d
    ensures 0 <= d * b + r < 2 * d
  {
  }

  // Figure F.24: the low bits of the value, from the place below the leading one.
  method DecodePattern(d: Decoder, st: nat, m0: nat, ghost j0: nat, ghost v: nat, ghost rest: seq<Decision>)
    returns (ok: bool, value: nat)
    requires d.Valid() && st < d.stats.Length && (m0 == 0 || m0 == Pow2(j0))
    modifies d, d.stats
    ensures ok ==> d.Valid() && d.Others() == old(d.Others())
    ensures old(d.InSync(Pattern(st, m0 / 2, v) + rest)) && Leads(m0, v) ==>
      ok && value == v && d.InSync(rest)
  {
    hide Decoder.Valid, Decoder.InSync, Pow2, Below;
    ok, value := true, m0;
    ghost var sync := old(d.InSync(Pattern(st, m0 / 2, v) + rest)) && Leads(m0, v);
    var m: nat := m0 / 2;
    ghost var j: int := j0 - 1;
    if sync { LeadingBit(v, m0, j0); }
    if m0 != 0 { Pow2Half(j0); }
    while m != 0
      invariant d.Valid() && d.Others() == old(d.Others())
      invariant m == 0 || (j >= 0 && m == Pow2(j))
      invariant sync ==> d.InSync(Pattern(st, m, v) + rest)
      invariant sync ==> value == v - Below(v, m)
      decreases m
    {
      ghost var goal := Pattern(st, m, v) + rest;
      var bit;
      ok, bit := d.ReadBit(st, goal);
      if !ok {
        return false, 0;
      }
      assert goal[1..] == Pattern(st, m / 2, v) + rest;
      if bit == 1 {
        value := value + m;
      }
      BelowStep(v, m, j);
      m := m / 2;
      j := j - 1;
    }
    assert Pattern(st, 0, v) + rest == rest;
    BelowZero(v);
  }

  lemma BelowZero(v: nat)
    ensures Below(v, 0) == 0
  {
  }

  // The bits of v below bit m, and bit m itself.
  function Below(v: nat, m: nat): nat {
    v % if m == 0 then 1 else 2 * m
  }

  lemma BelowStep(v: nat, m: nat, j: nat)
    requires m == Pow2(j)
    ensures Below(v, m) == Below(v, m / 2) + if v / m % 2 == 1 then m else 0
    ensures m / 2 == if j == 0 then 0 else Pow2(j - 1)
  {
    ModHalf(v, m);
    Pow2Half(j);
  }

  lemma Pow2Half(j: nat)
    ensures Pow2(j) / 2 == if j == 0 then 0 else Pow2(j - 1)
    ensures j > 0 ==> 2 * (Pow2(j) / 2) == Pow2(j)
  {
  }

  lemma LeadingBit(v: nat, m: nat, j: nat)
    requires m == 0 || m == Pow2(j)
    requires Leads(m, v)
    ensures m == v - Below(v, m / 2)
  {
    if m / 2 != 0 {
      assert m == 2 * (m / 2);
      ModUnique(v, m, 1, v - m);
    }
  }

  // Category and bit pattern, from the bin x where counting starts.
  method DecodeTail(d: Decoder, x: nat, m0: nat, ghost j0: nat, ghost h: nat, ghost v: nat, ghost rest: seq<Decision>)
    returns (status: Status, m: nat, value: nat)
    requires d.Valid() && j0 < 15 && m0 == Pow2(j0) && x + 29 - j0 <= d.stats.Length
    modifies d, d.stats
    ensures status == Done ==> d.Valid() && d.Others() == old(d.Others())
    ensures old(d.InSync(Tail(x, h, Top(m0, h), v) + rest)) && Leads(Top(m0, h), v) ==>
      && status != Dry && (status == Done <==> Top(m0, h) < 0x8000)
      && (status == Done ==> m == Top(m0, h) && value == v && d.InSync(rest))
  {
    hide Decoder.Valid, Decoder.InSync, Pow2, Steps, Top, Category, Pattern, Leads;
    ghost var pattern := Pattern(x + Steps(h) + 14, Top(m0, h) / 2, v) + rest;
    assert Tail(x, h, Top(m0, h), v) + rest == Category(x, h) + pattern;
    var st;
    status, m, st := DecodeCategory(d, x, m0, j0, h, pattern);
    value := m;
    if status == Done {
      var ok;
      ok, value := DecodePattern(d, st + 14, m, j0 + st - x, v, rest);
      if !ok {
        status := Dry;
      }
    }
  }

  // Figures F.23 and F.24 for a DC difference.
  method DecodeDcMagnitude(d: Decoder, st: nat, x1: nat, ghost v: nat, ghost rest: seq<Decision>)
    returns (status: Status, m: nat, value: nat)
    requires d.Valid() && st < d.stats.Length && x1 + 29 <= d.stats.Length
    modifies d, d.stats
    ensures status == Done ==> d.Valid() && d.Others() == old(d.Others())
    ensures old(d.InSync(DcMagnitude(st, x1, v) + rest)) ==>
      && status != Dry && (status == Done <==> v < 0x8000)
      && (status == Done ==> m == (if v == 0 then 0 else Msb(v)) && value == v && d.InSync(rest))
  {
    hide Decoder.Valid, Decoder.InSync, Steps, Top, Tail, Leads;
    ghost var tail := if v == 0 then rest else Tail(x1, v / 2, Msb(v), v) + rest;
    assert DcMagnitude(st, x1, v) + rest == [D(st, if v == 0 then 0 else 1)] + tail;
    var ok;
    ok, m := d.ReadBit(st, DcMagnitude(st, x1, v) + rest);
    if !ok {
      return Dry, 0, 0;
    }
    if m == 0 {
      return Done, 0, 0;
    }
    if v > 0 { MsbLeads(v); }
    status, m, value := DecodeTail(d, x1, m, 0, v / 2, v, rest);
  }

  // Figures F.23 and F.24 for an AC coefficient.
  method DecodeAcMagnitude(d: Decoder, st: nat, x2: nat, ghost v: nat, ghost rest: seq<Decision>)
    returns (status: Status, value: nat)
    requires d.Valid() && st < d.stats.Length && x2 + 28 <= d.stats.Length
    modifies d, d.stats
    ensures status == Done ==> d.Valid() && d.Others() == old(d.Others())
    ensures old(d.InSync(AcMagnitude(st, x2, v) + rest)) ==>
      && status != Dry && (status == Done <==> v < 0x8000)
      && (status == Done ==> value == v && d.InSync(rest))
  {
    hide Decoder.Valid, Decoder.InSync, Steps, Tail, Leads;
    ghost var goal := AcMagnitude(st, x2, v) + rest;
    ghost var tail := Tail(x2, v / 2 / 2, Msb(v), v) + rest;
    if v > 0 { MsbLeads(v); }
    var ok, m := d.ReadBit(st, goal);
    if !ok {
      return Dry, 0;
    }
    if m == 0 {
      assert v == 0 ==> goal[1..] == rest;
      return Done, 0;
    }
    ghost var goal1 := goal[1..];
    assert v > 0 ==> goal1 == if v / 2 == 0 then [D(st, 0)] + rest else [D(st, 1)] + tail;
    var more;
    ok, more := d.ReadBit(st, goal1);
    if !ok {
      return Dry, 0;
    }
    if more == 0 {
      assert v > 0 && v / 2 == 0 ==> goal1[1..] == rest;
      return Done, 1;
    }
    assert v / 2 > 0 ==> goal1[1..] == tail;
    status, m, value := DecodeTail(d, x2, 2, 1, v / 2 / 2, v, rest);
  }

  // The conditioning category: small, large or in between, and its sign.
  method ContextFor(m: nat, sign: Bit, dcL: nat, dcU: nat) returns (context: nat)
    ensures context == if m < Pow2(dcL) / 2 then 0 else if m > Pow2(dcU) / 2 then 12 + 4 * sign else 4 + 4 * sign
  {
    hide Pow2;
    context := 4;
    if m < Pow2(dcL) / 2 {
      context := 0;
    } else {
      if m > Pow2(dcU) / 2 {
        context := 12;
      }
      if sign == 1 {
        context := context + 4;
      }
    }
  }

  // Sections F.2.4.1 & F.1.4.4.1: decoding of DC coefficients; the new value is left in lastDcVal.
  method DecodeDc(d: Decoder, tbl: nat, ci: nat, dcL: nat, dcU: nat, ghost value: int, ghost rest: seq<Decision>)
    returns (status: Status)
    requires d.Valid() && tbl < NUM_ARITH_TBLS
    requires ci < |d.lastDcVal| == |d.dcContext| && d.dcContext[ci] <= 16
    modifies d, d.stats
    ensures status == Done ==> d.Valid() && |d.lastDcVal| == |d.dcContext| == |old(d.dcContext)| && d.dcContext[ci] <= 16
    ensures status == Done ==> d.dcContext == old(d.dcContext)[ci := d.dcContext[ci]] && d.landing == old(d.landing)
    ensures var diff := value - old(d.lastDcVal[ci]);
      old(d.InSync(DcDecisions(DcStats(tbl), DcStats(tbl) + d.dcContext[ci], diff) + rest)) ==>
        && status != Dry && (status == Done <==> Abs(diff) <= 0x8000)
        && (status == Done ==>
              d.InSync(rest)
              && d.lastDcVal == old(d.lastDcVal)[ci := value]
              && d.dcContext == old(d.dcContext)[ci := NextContext(diff, dcL, dcU)])
  {
    hide Decoder.Valid, Decoder.InSync, DcMagnitude, Msb, Pow2, Steps;
    ghost var diff := value - d.lastDcVal[ci];
    ghost var v: nat := if diff == 0 then 0 else Abs(diff) - 1;
    var st := DcStats(tbl) + d.dcContext[ci];
    ghost var goal := DcDecisions(DcStats(tbl), st, diff) + rest;
    ghost var tail := DcMagnitude(st + 2 + SignBit(diff), DcStats(tbl) + 20, v) + rest;
    var ok, bit := d.ReadBit(st, goal);
    if !ok {
      return Dry;
    }
    if bit == 0 {
      assert diff == 0 ==> goal[1..] == rest;
      d.SetDc(ci, d.lastDcVal[ci], 0);
      return Done;
    }
    assert diff != 0 ==> goal[1..] == [D(st + 1, SignBit(diff))] + tail;
    var sign;
    ok, sign := d.ReadBit(st + 1, goal[1..]);
    if !ok {
      return Dry;
    }
    assert diff != 0 ==> goal[1..][1..] == tail;
    var m, delta;
    status, m, delta := DecodeDcMagnitude(d, st + 2 + sign, DcStats(tbl) + 20, v, rest);
    if status != Done {
      return;
    }
    var context := ContextFor(m, sign, dcL, dcU);
    var diffValue: int := delta + 1;
    if sign == 1 {
      diffValue := -diffValue;
    }
    d.SetDc(ci, d.lastDcVal[ci] + diffValue, context);
  }

  lemma PlacedNone(area: seq<int>, at: nat, order: seq<nat>, a: seq<int>, al: nat, ss: nat)
    requires IsOrder(order) && |a| == 64 && at + 64 <= |area| && ss <= 64
    ensures Placed(area, at, order, a, al, ss, ss) == area
  {
  }

  lemma PlacedNext(area: seq<int>, at: nat, order: seq<nat>, w: seq<int>, al: nat, ss: nat, k: nat)
    requires IsOrder(order) && |w| == 64 && ss <= k < 64 && at + 64 <= |area|
    ensures Placed(area, at, order, w, al, ss, k + 1)
      == if w[k] == 0 then Placed(area, at, order, w, al, ss, k)
         else Placed(area, at, order, w, al, ss, k)[at + order[k] := ToShort(w[k] * Pow2(al))]
  {
  }

  // The zero run before a coefficient, within the band.
  method DecodeRun(d: Decoder, base: nat, k0: nat, se: nat, ghost w: seq<int>, ghost kx: int, ghost ke: nat, ghost rest: seq<Decision>)
    returns (status: Status, k: nat)
    requires d.Valid() && 1 <= k0 <= se < 64 && base + 192 <= d.stats.Length
    modifies d, d.stats
    ensures status == Done ==> d.Valid() && d.Others() == old(d.Others()) && k0 <= k <= se
    ensures k0 <= ke <= se && |w| == 64 && w[ke] != 0 && old(d.InSync(AcRun(base, w, kx, k0, ke, se) + rest)) ==>
      && status == Done && k <= ke && w[k] != 0 && (forall i :: k0 <= i < k ==> w[i] == 0)
      && d.InSync(AcRun(base, w, kx, k, ke, se)[1..] + rest)
  {
    hide Decoder.Valid, Decoder.InSync, AcDecisions, CoefDecisions, AcRun, Steps;
    k := k0;
    ghost var live := k0 <= ke <= se && |w| == 64 && w[ke] != 0;
    ghost var sync := live && d.InSync(AcRun(base, w, kx, k, ke, se) + rest);
    ghost var goal := if live then AcRun(base, w, kx, k, ke, se) + rest else [];
    if live { AcRunHead(base, w, kx, k, ke, se); }
    var ok, bit := d.ReadBit(base + 3 * (k - 1) + 1, goal);
    if !ok {
      return Dry, k;
    }
    assert live ==> goal[1..] == AcRun(base, w, kx, k, ke, se)[1..] + rest;
    while bit == 0
      invariant d.Valid() && d.Others() == old(d.Others()) && k0 <= k <= se
      invariant sync ==> k <= ke && (forall i :: k0 <= i < k ==> w[i] == 0) && (bit == 0 <==> w[k] == 0)
      invariant sync ==> d.InSync(AcRun(base, w, kx, k, ke, se)[1..] + rest)
      decreases se - k
    {
      if sync { AcRunHead(base, w, kx, k, ke, se); }
      k := k + 1;
      if k > se {
        return BadCode, k;
      }
      goal := if sync then AcRun(base, w, kx, k, ke, se) + rest else [];
      if sync { AcRunHead(base, w, kx, k, ke, se); }
      ok, bit := d.ReadBit(base + 3 * (k - 1) + 1, goal);
      if !ok {
        return Dry, k;
      }
      assert sync ==> goal[1..] == AcRun(base, w, kx, k, ke, se)[1..] + rest;
    }
    return Done, k;
  }

  lemma AcRunHead(base: nat, w: seq<int>, kx: int, k: nat, ke: nat, se: nat)
    requires 1 <= k <= ke < |w| && w[ke] != 0
    ensures var r, st := AcRun(base, w, kx, k, ke, se), base + 3 * (k - 1);
      && r != [] && r[0] == D(st + 1, if w[k] == 0 then 0 else 1)
      && (w[k] == 0 ==> k < ke && r[1..] == AcRun(base, w, kx, k + 1, ke, se))
      && (w[k] != 0 ==> r[1..] == CoefDecisions(st, X2(base, k, kx), w[k])[1..] + AcDecisions(base, w, kx, k + 1, ke, se))
  {
  }

  // Sign and magnitude of a nonzero coefficient.
  method DecodeCoef(d: Decoder, st: nat, x2: nat, ghost coef: int, ghost rest: seq<Decision>)
    returns (status: Status, v: int)
    requires d.Valid() && st + 2 < d.stats.Length && x2 + 28 <= d.stats.Length
    modifies d, d.stats
    ensures status == Done ==> d.Valid() && d.Others() == old(d.Others())
    ensures coef != 0 && old(d.InSync(CoefDecisions(st, x2, coef)[1..] + rest)) ==>
      && status != Dry && (status == Done <==> Abs(coef) <= 0x8000)
      && (status == Done ==> v == coef && d.InSync(rest))
  {
    hide Decoder.Valid, Decoder.InSync, AcMagnitude;
    ghost var mag: nat := if coef == 0 then 0 else Abs(coef) - 1;
    ghost var goal := if coef == 0 then [] else CoefDecisions(st, x2, coef)[1..] + rest;
    assert coef != 0 ==> goal == [D(FIXED_BIN, SignBit(coef))] + (AcMagnitude(st + 2, x2, mag) + rest);
    var ok, sign := d.ReadBit(FIXED_BIN, goal);
    if !ok {
      return Dry, 0;
    }
    var value;
    status, value := DecodeAcMagnitude(d, st + 2, x2, mag, rest);
    v := value + 1;
    if sign == 1 {
      v := -v;
    }
  }

  // One coefficient of a band: end of block, or a run of zeros, the sign and the magnitude.
  method DecodeAcCoef(d: Decoder, tbl: nat, kx: int, area: array<int>, at: nat, order: seq<nat>, k0: nat, se: nat, al: nat,
                      ghost w: seq<int>, ghost ke: nat, ghost rest: seq<Decision>)
    returns (status: Status, done: bool, k: nat)
    requires d.Valid() && tbl < NUM_ARITH_TBLS
    requires IsOrder(order) && 1 <= k0 <= se < 64 && at + 64 <= area.Length
    modifies d, d.stats, area
    ensures status == Done ==> d.Valid() && d.Others() == old(d.Others()) && (!done ==> k0 <= k <= se)
    ensures (|w| == 64 && (forall i :: 0 <= i < 64 ==> Abs(w[i]) <= 0x8000) && ke == EobIndex(w, se)
             && old(d.InSync(AcDecisions(AcStats(tbl), w, kx, k0, ke, se) + rest))) ==>
      status == Done && (done <==> k0 > ke)
      && (done ==> d.InSync(rest) && area[..] == old(area[..]))
      && (!done ==>
            d.InSync(AcDecisions(AcStats(tbl), w, kx, k + 1, ke, se) + rest) && k <= ke
            && w[k] != 0 && (forall i :: k0 <= i < k ==> w[i] == 0)
            && area[..] == old(area[..])[at + order[k] := ToShort(w[k] * Pow2(al))])
  {
    hide Decoder.Valid, Decoder.InSync, AcRun, CoefDecisions, Pow2, Steps, ToShort;
    ghost var base, live := AcStats(tbl), |w| == 64 && (forall i :: 0 <= i < 64 ==> Abs(w[i]) <= 0x8000) && ke == EobIndex(w, se);
    ghost var sync := live && d.InSync(AcDecisions(base, w, kx, k0, ke, se) + rest);
    ghost var goal := if sync then AcDecisions(base, w, kx, k0, ke, se) + rest else [];
    var ok, bit := d.ReadBit(AcStats(tbl) + 3 * (k0 - 1), goal);
    if !ok {
      return Dry, false, k0;
    }
    assert sync ==> goal[1..] == if k0 <= ke then AcRun(base, w, kx, k0, ke, se) + rest else rest;
    if bit == 1 {
      return Done, true, k0;
    }
    status, k := DecodeRun(d, AcStats(tbl), k0, se, w, kx, ke, rest);
    if status != Done {
      return status, false, k;
    }
    ghost var later := if sync then AcDecisions(base, w, kx, k + 1, ke, se) + rest else [];
    if sync {
      AcRunHead(base, w, kx, k, ke, se);
      CoefTail(AcStats(tbl) + 3 * (k - 1), X2(base, k, kx), w[k], AcDecisions(base, w, kx, k + 1, ke, se), rest);
    }
    var v;
    status, v := DecodeCoef(d, AcStats(tbl) + 3 * (k - 1), X2(AcStats(tbl), k, kx), if sync then w[k] else 0, later);
    if status != Done {
      return status, false, k;
    }
    area[at + order[k]] := ToShort(v * Pow2(al));
    return Done, false, k;
  }

  // The AC coefficients ss to se of the block at offset at (sections F.2.4.2 and F.1.4.4.2 of ITU-T T.81).
  method DecodeAc(d: Decoder, tbl: nat, kx: int, area: array<int>, at: nat, order: seq<nat>, ss: nat, se: nat, al: nat,
                  ghost w: seq<int>, ghost rest: seq<Decision>)
    returns (status: Status)
    requires d.Valid() && tbl < NUM_ARITH_TBLS
    requires IsOrder(order) && 1 <= ss && se < 64 && at + 64 <= area.Length
    modifies d, d.stats, area
    ensures status == Done ==> d.Valid() && d.Others() == old(d.Others())
    ensures
      |w| == 64 && (forall k :: 0 <= k < 64 ==> Abs(w[k]) <= 0x8000)
      && old(d.InSync(AcDecisions(AcStats(tbl), w, kx, ss, EobIndex(w, se), se) + rest))
      ==>
        status == Done && d.InSync(rest)
        && (ss <= se + 1 ==> area[..] == Placed(old(area[..]), at, order, w, al, ss, se + 1))
  {
    hide Decoder.Valid, Decoder.InSync, AcDecisions, Pow2, Placed, ToShort, EobIndex;
    status := Done;
    ghost var base, area0, live := AcStats(tbl), area[..], |w| == 64 && forall k :: 0 <= k < 64 ==> Abs(w[k]) <= 0x8000;
    ghost var ke := if live then EobIndex(w, se) else 0;
    ghost var sync := live && d.InSync(AcDecisions(base, w, kx, ss, ke, se) + rest);
    var k := ss;
    if live && k <= 64 { PlacedNone(area0, at, order, w, al, ss); }
    while k <= se
      invariant d.Valid() && d.Others() == old(d.Others())
      invariant status == Done && ss <= k && (k <= se + 1 || k == ss)
      invariant sync ==> d.InSync(AcDecisions(base, w, kx, k, ke, se) + rest)
      invariant sync && k <= 64 ==> area[..] == Placed(area0, at, order, w, al, ss, k)
    {
      ghost var k0 := k;
      var done;
      status, done, k := DecodeAcCoef(d, tbl, kx, area, at, order, k, se, al, w, ke, rest);
      if status != Done {
        return;
      }
      if done {
        if sync { PlacedZeros(area0, at, order, w, al, ss, k0, se + 1); }
        return Done;
      }
      if sync {
        PlacedZeros(area0, at, order, w, al, ss, k0, k);
        PlacedNext(area0, at, order, w, al, ss, k);
      }
      k := k + 1;
    }
    if sync { AcDone(base, w, kx, k, ke, se, rest); }
  }

  lemma AcDone(base: nat, w: seq<int>, kx: int, k: nat, ke: nat, se: nat, rest: seq<Decision>)
    requires k > se && |w| == 64 && se < 64 && ke == EobIndex(w, se) && k >= 1
    ensures AcDecisions(base, w, kx, k, ke, se) + rest == rest
  {
  }

  lemma CoefTail(st: nat, x2: nat, v: int, next: seq<Decision>, rest: seq<Decision>)
    requires v != 0
    ensures CoefDecisions(st, x2, v)[1..] + next + rest == CoefDecisions(st, x2, v)[1..] + (next + rest)
  {
  }

  // The end the block had before this scan.
  method FindEobx(area: array<int>, at: nat, order: seq<nat>, se: nat) returns (kex: nat)
    requires IsOrder(order) && at + 64 <= area.Length && se < 64
    ensures kex <= se && (kex > 0 ==> area[at + order[kex]] != 0)
    ensures forall k :: kex < k <= se ==> area[at + order[k]] == 0
  {
    kex := se;
    while kex > 0
      invariant kex <= se
      invariant forall k :: kex < k <= se ==> area[at + order[k]] == 0
    {
      if area[at + order[kex]] != 0 { break; }
      kex := kex - 1;
    }
  }

  lemma RefineRunHead(base: nat, a: seq<int>, kex: nat, k: nat, ke: nat, se: nat, rest: seq<Decision>)
    requires 1 <= k <= ke < |a| && a[ke] != 0
    ensures var r, st := RefineRun(base, a, kex, k, ke, se) + rest, base + 3 * (k - 1);
      if a[k] == 0 then k < ke && r == [D(st + 1, 0)] + (RefineRun(base, a, kex, k + 1, ke, se) + rest)
      else
        var next := RefineDecisions(base, a, kex, k + 1, ke, se) + rest;
        r == if Abs(a[k]) / 2 != 0 then [D(st + 2, Abs(a[k]) % 2)] + next
             else [D(st + 1, 1)] + ([D(FIXED_BIN, SignBit(a[k]))] + next)
  {
  }

  // The decisions after those of coefficient k.
  ghost function RefineNext(base: nat, a: seq<int>, kex: nat, k: nat, ke: nat, se: nat, rest: seq<Decision>): seq<Decision>
    requires 1 <= k <= ke < |a| && a[ke] != 0
  {
    if a[k] == 0 then RefineRun(base, a, kex, k + 1, ke, se) + rest else RefineDecisions(base, a, kex, k + 1, ke, se) + rest
  }

  // A coefficient that was nonzero before: one correction bit.
  method Correct(d: Decoder, st: nat, area: array<int>, pos: nat, al: nat, ghost v: int, ghost next: seq<Decision>)
    returns (ok: bool)
    requires d.Valid() && st < d.stats.Length && pos < area.Length && area[pos] != 0
    modifies d, d.stats, area
    ensures ok ==> d.Valid() && d.Others() == old(d.Others())
    ensures (Abs(v) / 2 != 0 && old(area[pos]) == Prior(v, al) && -0x8000 <= v * Pow2(al) < 0x8000
             && old(d.InSync([D(st, Abs(v) % 2)] + next))) ==>
      ok && d.InSync(next) && area[..] == old(area[..])[pos := ToShort(v * Pow2(al))]
  {
    hide Decoder.Valid, Decoder.InSync, Pow2, Prior;
    ghost var goal := [D(st, Abs(v) % 2)] + next;
    assert goal[1..] == next;
    PriorStep(v, al);
    var bit, p1: int := 0, Pow2(al);
    ok, bit := d.ReadBit(st, goal);
    if ok && bit == 1 {
      area[pos] := ToShort(SignedBy(area[pos], p1) + area[pos]);
    }
  }

  // A coefficient that was zero before: is it newly nonzero, and of which sign?
  method NewlyNonzero(d: Decoder, st: nat, area: array<int>, pos: nat, al: nat, ghost v: int, ghost next: seq<Decision>)
    returns (ok: bool, nonzero: bool)
    requires d.Valid() && st < d.stats.Length && pos < area.Length && area[pos] == 0
    modifies d, d.stats, area
    ensures ok ==> d.Valid() && d.Others() == old(d.Others())
    ensures (v == 0 && old(d.InSync([D(st, 0)] + next))) ==>
      ok && !nonzero && d.InSync(next) && area[..] == old(area[..])
    ensures (Abs(v) == 1 && old(d.InSync([D(st, 1)] + ([D(FIXED_BIN, SignBit(v))] + next)))) ==>
      ok && nonzero && d.InSync(next) && area[..] == old(area[..])[pos := ToShort(v * Pow2(al))]
  {
    hide Decoder.Valid, Decoder.InSync, Pow2;
    ghost var last := [D(FIXED_BIN, SignBit(v))] + next;
    ghost var goal := if v == 0 then [D(st, 0)] + next else [D(st, 1)] + last;
    assert goal[1..] == if v == 0 then next else last;
    assert last[1..] == next;
    var bit;
    ok, bit := d.ReadBit(st, goal);
    nonzero := bit == 1;
    if ok && nonzero {
      ok, bit := d.ReadBit(FIXED_BIN, last);
      var p1: int := Pow2(al);
      area[pos] := ToShort(if bit == 1 then -p1 else p1);
    }
  }

  // One round of the loop: up to and including the next nonzero coefficient.
  method DecodeRefineRun(d: Decoder, base: nat, area: array<int>, at: nat, order: seq<nat>, al: nat, k0: nat, se: nat,
                         ghost a: seq<int>, ghost kex: nat, ghost ke: nat, ghost rest: seq<Decision>)
    returns (status: Status, k: nat)
    requires d.Valid() && 1 <= k0 <= se < 64 && base + 192 <= d.stats.Length
    requires IsOrder(order) && at + 64 <= area.Length
    modifies d, d.stats, area
    ensures status == Done ==> d.Valid() && d.Others() == old(d.Others()) && k0 < k <= se + 1
    ensures (k0 <= ke <= se && |a| == 64 && a[ke] != 0 && FitsShort(a, al)
             && Unrefined(old(area[..]), at, order, a, al, k0, se)
             && old(d.InSync(RefineRun(base, a, kex, k0, ke, se) + rest))) ==>
      status == Done && k <= ke + 1 && d.InSync(RefineDecisions(base, a, kex, k, ke, se) + rest)
      && area[..] == Placed(old(area[..]), at, order, a, al, k0, k)
  {
    hide Decoder.Valid, Decoder.InSync, RefineDecisions, RefineRun, Pow2, Prior, ToShort, Steps, Placed;
    k := k0;
    ghost var area0 := area[..];
    ghost var sync := k0 <= ke <= se && |a| == 64 && a[ke] != 0 && FitsShort(a, al)
      && Unrefined(area[..], at, order, a, al, k0, se) && d.InSync(RefineRun(base, a, kex, k0, ke, se) + rest);
    if sync { PlacedNone(area0, at, order, a, al, k0); }
    while true
      invariant d.Valid() && d.Others() == old(d.Others()) && k0 <= k <= se
      invariant sync ==> k <= ke && d.InSync(RefineRun(base, a, kex, k, ke, se) + rest)
      invariant sync ==> area[..] == Placed(area0, at, order, a, al, k0, k)
      decreases se - k
    {
      ghost var v, next := 0, [];
      if sync {
        v, next := a[k], RefineNext(base, a, kex, k, ke, se, rest);
        RefineRunHead(base, a, kex, k, ke, se, rest);
        PlacedAt(area0, at, order, a, al, k0, k, k);
        PlacedNext(area0, at, order, a, al, k0, k);
        assert area[..][at + order[k]] == Prior(v, al);
        PriorStep(v, al);
      }
      var st, pos := base + 3 * (k - 1), at + order[k];
      var ok, nonzero := true, true;
      if area[pos] != 0 {
        ok := Correct(d, st + 2, area, pos, al, v, next);
      } else {
        ok, nonzero := NewlyNonzero(d, st + 1, area, pos, al, v, next);
      }
      if !ok {
        return Dry, k;
      }
      k := k + 1;
      if nonzero {
        return Done, k;
      }
      if k > se {
        return BadCode, k;
      }
    }
  }

  lemma RefineHead(base: nat, a: seq<int>, kex: nat, k: nat, ke: nat, se: nat, rest: seq<Decision>)
    requires 1 <= k && ke < |a| && ke <= se && (ke > 0 ==> a[ke] != 0)
    ensures var r, st := RefineDecisions(base, a, kex, k, ke, se) + rest, base + 3 * (k - 1);
      r == if k <= ke && k > kex then [D(st, 0)] + (RefineRun(base, a, kex, k, ke, se) + rest)
           else if k <= ke then RefineRun(base, a, kex, k, ke, se) + rest
           else if k <= se then [D(st, 1)] + rest
           else rest
  {
  }

  // The end-of-block decision, asked for only past the end before this scan.
  method EndOfBlock(d: Decoder, base: nat, k: nat, kex: nat, ghost a: seq<int>, ghost kex0: nat, ghost ke: nat, ghost se: nat,
                    ghost rest: seq<Decision>)
    returns (ok: bool, done: bool)
    requires d.Valid() && 1 <= k <= 64 && base + 192 <= d.stats.Length
    modifies d, d.stats
    ensures ok ==> d.Valid() && d.Others() == old(d.Others())
    ensures (ke <= se < |a| && k <= se && (ke > 0 ==> a[ke] != 0) && kex0 <= ke && (k > kex <==> k > kex0)
             && old(d.InSync(RefineDecisions(base, a, kex0, k, ke, se) + rest))) ==>
      ok && (done <==> k > ke) && d.InSync(if done then rest else RefineRun(base, a, kex0, k, ke, se) + rest)
  {
    hide Decoder.Valid, Decoder.InSync, RefineRun, RefineDecisions;
    ok, done := true, false;
    ghost var live := ke <= se < |a| && k <= se && (ke > 0 ==> a[ke] != 0) && kex0 <= ke && (k > kex <==> k > kex0);
    ghost var goal, next := [], [];
    if live {
      RefineHead(base, a, kex0, k, ke, se, rest);
      goal := RefineDecisions(base, a, kex0, k, ke, se) + rest;
      next := if k <= ke then RefineRun(base, a, kex0, k, ke, se) + rest else rest;
    }
    if k > kex {
      assert live ==> goal[1..] == next;
      var bit;
      ok, bit := d.ReadBit(base + 3 * (k - 1), goal);
      done := bit == 1;
    }
  }

  // Refinement of AC coefficients ss..se of the block at offset at.
  method DecodeAcRefine(d: Decoder, tbl: nat, area: array<int>, at: nat, order: seq<nat>, ss: nat, se: nat, al: nat,
                        ghost a: seq<int>, ghost kex0: nat, ghost rest: seq<Decision>)
    returns (status: Status)
    requires d.Valid() && tbl < NUM_ARITH_TBLS
    requires IsOrder(order) && 1 <= ss <= se + 1 && se < 64 && at + 64 <= area.Length
    modifies d, d.stats, area
    ensures status == Done ==> d.Valid() && d.Others() == old(d.Others())
    ensures (|a| == 64 && FitsShort(a, al) && IsEobx(a, kex0, EobIndex(a, se))
             && Unrefined(old(area[..]), at, order, a, al, ss, se)
             && old(d.InSync(RefineDecisions(AcStats(tbl), a, kex0, ss, EobIndex(a, se), se) + rest))) ==>
      status == Done && d.InSync(rest) && area[..] == Placed(old(area[..]), at, order, a, al, ss, se + 1)
  {
    hide Decoder.Valid, Decoder.InSync, RefineRun, RefineDecisions, Pow2, Prior, ToShort, Steps, EobIndex, Placed;
    hide FitsShort, Unrefined, IsEobx;
    status := Done;
    ghost var base, area0 := AcStats(tbl), area[..];
    ghost var ke := if |a| == 64 then EobIndex(a, se) else 0;
    ghost var sync := |a| == 64 && FitsShort(a, al) && IsEobx(a, kex0, ke)
      && Unrefined(area[..], at, order, a, al, ss, se)
      && d.InSync(RefineDecisions(base, a, kex0, ss, ke, se) + rest);
    var kex := FindEobx(area, at, order, se);
    if sync {
      SameEobx(area0, at, order, a, al, ss, se, kex, kex0, ke);
      PlacedNone(area0, at, order, a, al, ss);
    }
    var k := ss;
    while k <= se
      invariant d.Valid() && d.Others() == old(d.Others())
      invariant status == Done && ss <= k <= se + 1
      invariant sync ==> d.InSync(RefineDecisions(base, a, kex0, k, ke, se) + rest)
      invariant sync ==> area[..] == Placed(area0, at, order, a, al, ss, k)
    {
      var ok, done := EndOfBlock(d, AcStats(tbl), k, kex, a, kex0, ke, se, rest);
      if !ok {
        return Dry;
      }
      if done {
        if sync { PlacedZeros(area0, at, order, a, al, ss, k, se + 1); }
        return Done;
      }
      ghost var k0 := k;
      if sync { StillUnrefined(area0, at, order, a, al, ss, k, se); }
      status, k := DecodeRefineRun(d, AcStats(tbl), area, at, order, al, k, se, a, kex0, ke, rest);
      if status != Done {
        return;
      }
      if sync { PlacedAgain(area0, at, order, a, al, ss, k0, k); }
    }
    if sync { RefineHead(base, a, kex0, k, ke, se, rest); }
  }

  // Encoder and decoder agree on where the previous stage ended, as far as this band is concerned.
  lemma SameEobx(area: seq<int>, at: nat, order: seq<nat>, a: seq<int>, al: nat, ss: nat, se: nat, kex: nat, kex0: nat, ke: nat)
    requires IsOrder(order) && |a| == 64 && at + 64 <= |area| && 1 <= ss && se < 64 && ke == EobIndex(a, se)
    requires IsEobx(a, kex0, ke) && Unrefined(area, at, order, a, al, ss, se)
    requires kex <= se && (kex > 0 ==> area[at + order[kex]] != 0)
    requires forall k :: kex < k <= se ==> area[at + order[k]] == 0
    ensures (kex == kex0 || (kex < ss && kex0 < ss)) && kex0 <= ke <= se
  {
    hide Pow2, Prior;
    forall k | ss <= k <= se
      ensures area[at + order[k]] != 0 <==> Abs(a[k]) / 2 != 0
    {
      PriorStep(a[k], al);
    }
    assert kex0 >= ss ==> area[at + order[kex0]] != 0;
    assert kex >= ss ==> Abs(a[kex]) / 2 != 0 && a[kex] != 0;
  }

  lemma StillUnrefined(area: seq<int>, at: nat, order: seq<nat>, a: seq<int>, al: nat, ss: nat, k: nat, se: nat)
    requires IsOrder(order) && |a| == 64 && at + 64 <= |area| && ss <= k <= 64 && se < 64
    requires Unrefined(area, at, order, a, al, ss, se)
    ensures Unrefined(Placed(area, at, order, a, al, ss, k), at, order, a, al, k, se)
  {
    hide Pow2, Prior, ToShort;
    forall i | k <= i <= se
      ensures Placed(area, at, order, a, al, ss, k)[at + order[i]] == Prior(a[i], al)
    {
      PlacedAt(area, at, order, a, al, ss, k, i);
    }
  }
}
