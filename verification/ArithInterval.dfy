// The exact-integer interval coder that the encoder and the decoder both refine:
// section D.1 of ITU-T T.81 with unbounded registers.
module ArithInterval {
  import opened AritTable
  import opened Numbers

  lemma Pow2Consts()
    ensures Pow2(16) == 0x10000 && Pow2(19) == 0x80000 && Pow2(24) == 0x1000000 && Pow2(27) == 0x8000000
  {
    assert Pow2(8) == 0x100;
    Pow2Plus(8, 8);
    assert Pow2(3) == 8;
    Pow2Plus(3, 16);
    Pow2Plus(8, 16);
    Pow2Plus(3, 24);
  }

  // ----- one statistics bin: bit 7 is the MPS, bits 0..6 the state -----

  predicate IsStat(sv: Byte) { sv % 0x80 < 114 }

  function Mps(sv: Byte): Bit { sv / 0x80 }

  function Qe(sv: Byte): (q: nat)
    requires IsStat(sv)
    ensures 1 <= q <= 0x5b12
  {
    JpegAritab(sv % 0x80) / 0x10000
  }

  // (sv & 0x80) ^ n
  function XorMps(sv: Byte, n: Byte): (r: Byte)
    ensures r % 0x80 == n % 0x80 && (Mps(r) != Mps(sv) <==> n >= 0x80)
  {
    if (sv >= 0x80) == (n >= 0x80) then n % 0x80 else 0x80 + n % 0x80
  }

  function NextLps(sv: Byte): (s: Byte)
    requires IsStat(sv)
    ensures IsStat(s)
  {
    XorMps(sv, JpegAritab(sv % 0x80) % 0x100)
  }

  function NextMps(sv: Byte): (s: Byte)
    requires IsStat(sv)
    ensures IsStat(s)
  {
    XorMps(sv, JpegAritab(sv % 0x80) / 0x100 % 0x100)
  }

  // ----- intervals: [low, low + size) in units of 2^-(16 + shift) -----

  datatype Interval = Interval(low: nat, size: nat, shift: nat) {
    predicate Inside() {
      0 < size <= 0x10000 && low + size <= 0x10000 * Pow2(shift)
    }

    predicate Normal() {
      Inside() && size >= 0x8000
    }
  }

  const START := Interval(0, 0x10000, 0)

  function Double(iv: Interval): (r: Interval)
    requires iv.Inside() && iv.size < 0x8000
    ensures r.Inside()
  {
    Interval(2 * iv.low, 2 * iv.size, iv.shift + 1)
  }

  function Renorm(iv: Interval): (r: Interval)
    requires iv.Inside()
    ensures r.Normal()
    decreases 0x8000 - iv.size
  {
    if iv.size < 0x8000 then Renorm(Double(iv)) else iv
  }

  // The less probable symbol takes the upper part unless that part is the larger one.
  predicate TakesUpper(sv: Byte, size: nat, bit: Bit)
    requires IsStat(sv) && Qe(sv) <= size
  {
    (bit != Mps(sv)) <==> size - Qe(sv) >= Qe(sv)
  }

  function Split(iv: Interval, sv: Byte, bit: Bit): (r: Interval)
    requires iv.Normal() && IsStat(sv)
    ensures r.Inside()
  {
    var rest := iv.size - Qe(sv);
    if TakesUpper(sv, iv.size, bit) then Interval(iv.low + rest, Qe(sv), iv.shift)
    else Interval(iv.low, rest, iv.shift)
  }

  function NextStat(sv: Byte, size: nat, bit: Bit): (s: Byte)
    requires IsStat(sv) && Qe(sv) <= size
    ensures IsStat(s)
  {
    if bit != Mps(sv) then NextLps(sv)
    else if size - Qe(sv) >= 0x8000 then sv
    else NextMps(sv)
  }

  // The more probable symbol has the larger part of the interval, and the lower one if both are equal; the upper part is
  // always of size Qe.
  lemma Exchange(iv: Interval, sv: Byte)
    requires iv.Normal() && IsStat(sv)
    ensures var m, l := Split(iv, sv, Mps(sv)), Split(iv, sv, 1 - Mps(sv));
      var lower, upper := Interval(iv.low, iv.size - Qe(sv), iv.shift), Interval(iv.low + iv.size - Qe(sv), Qe(sv), iv.shift);
      && m.size >= l.size && (m.size == l.size ==> m == lower) && ((m == lower && l == upper) || (m == upper && l == lower))
  {
  }

  // The estimate changes just when the interval has to be doubled, as it always has to be for the less probable symbol.
  lemma AdaptsWhenDoubled(iv: Interval, sv: Byte, bit: Bit)
    requires iv.Normal() && IsStat(sv)
    ensures NextStat(sv, iv.size, bit) ==
      if Split(iv, sv, bit).size >= 0x8000 then sv else if bit == Mps(sv) then NextMps(sv) else NextLps(sv)
    ensures bit != Mps(sv) ==> Split(iv, sv, bit).size < 0x8000
  {
  }

  // The next states are those of the table; only a less probable symbol can change which symbol that is.
  lemma NextStates(sv: Byte)
    requires IsStat(sv)
    ensures var r := TableD2(sv % 0x80);
      && Qe(sv) == r.qe && NextMps(sv) % 0x80 == r.nextMps && Mps(NextMps(sv)) == Mps(sv)
      && NextLps(sv) % 0x80 == r.nextLps && (Mps(NextLps(sv)) != Mps(sv) <==> r.switchMps == 1)
  {
    hide TableD2;
  }

  // A more probable symbol never makes the other one look more probable; the other one never makes itself look less
  // probable, unless it becomes the more probable one.
  lemma Estimates(sv: Byte)
    requires IsStat(sv)
    ensures Qe(NextMps(sv)) <= Qe(sv)
    ensures Qe(NextLps(sv)) >= Qe(sv) || Mps(NextLps(sv)) != Mps(sv)
  {
    hide TableD2;
    NextStates(sv);
    NextStates(NextMps(sv));
    NextStates(NextLps(sv));
    RowAdapts(sv % 0x80);
  }

  lemma LastRow()
    ensures TableD2(113) == Row(0x5a1d, 113, 113, 0)
  {
  }

  // The state reserved for probability 0.5 never changes.
  lemma FixedStat()
    ensures NextLps(113) == 113 && NextMps(113) == 113
  {
    hide TableD2, JpegAritab;
    LastRow();
    var low := JpegAritab(113) % 0x100;
    assert low % 0x80 == 113 && low < 0x80;
  }

  // ----- the coder: an interval and the statistics area -----

  const FIXED_BIN := 5120    // 16 tables of 64 DC bins, then 16 tables of 256 AC bins
  const AREA_SIZE := 5121

  predicate GoodStats(mem: seq<Byte>) {
    && |mem| == AREA_SIZE && mem[FIXED_BIN] == 113
    && forall k :: 0 <= k < |mem| ==> IsStat(mem[k])
  }

  // Statistics at the start of a scan or restart interval.
  function FreshStats(): (mem: seq<Byte>)
    ensures GoodStats(mem)
  {
    seq(AREA_SIZE, k => if k == FIXED_BIN then 113 else 0)
  }

  lemma StatsStep(mem: seq<Byte>, st: nat, size: nat, bit: Bit)
    requires GoodStats(mem) && st < |mem| && Qe(mem[st]) <= size
    ensures GoodStats(mem[st := NextStat(mem[st], size, bit)])
  {
    hide Qe, NextLps, NextMps;
    FixedStat();
  }

  datatype Decision = Decision(st: nat, bit: Bit)

  datatype Coder = Coder(iv: Interval, mem: seq<Byte>) {
    ghost predicate Ready() {
      iv.Normal() && GoodStats(mem)
    }
  }

  function Step(s: Coder, d: Decision): (r: Coder)
    requires s.Ready() && d.st < |s.mem|
    ensures r.Ready()
  {
    var sv := s.mem[d.st];
    StatsStep(s.mem, d.st, s.iv.size, d.bit);
    Coder(Renorm(Split(s.iv, sv, d.bit)), s.mem[d.st := NextStat(sv, s.iv.size, d.bit)])
  }

  ghost predicate InArea(ds: seq<Decision>, n: nat) {
    forall k :: 0 <= k < |ds| ==> ds[k].st < n
  }

  ghost function Run(s: Coder, ds: seq<Decision>): (r: Coder)
    requires s.Ready() && InArea(ds, |s.mem|)
    ensures r.Ready()
    decreases |ds|
  {
    if ds == [] then s else Run(Step(s, ds[0]), ds[1..])
  }

  lemma {:induction false} RunConcat(s: Coder, a: seq<Decision>, b: seq<Decision>)
    requires s.Ready() && InArea(a, |s.mem|) && InArea(b, |s.mem|)
    ensures InArea(a + b, |s.mem|)
    ensures Run(s, a + b) == Run(Run(s, a), b)
    decreases |a|
  {
    if a == [] {
      assert a + b == b;
    } else {
      assert (a + b)[1..] == a[1..] + b;
      RunConcat(Step(s, a[0]), a[1..], b);
    }
  }

  lemma RunOne(s: Coder, d: Decision)
    requires s.Ready() && d.st < |s.mem|
    ensures InArea([d], |s.mem|) && Run(s, [d]) == Step(s, d)
  {
    assert [d][1..] == [];
  }

  // ----- code strings: bytes after the point, zeros supplied past the end -----

  function At(code: seq<Byte>, i: nat): Byte {
    if i < |code| then code[i] else 0
  }

  function Prefix(code: seq<Byte>, m: nat): nat {
    if m == 0 then 0 else 0x100 * Prefix(code, m - 1) + At(code, m - 1)
  }

  ghost predicate SameCode(a: seq<Byte>, b: seq<Byte>) {
    forall i: nat :: At(a, i) == At(b, i)
  }

  lemma {:induction false} PrefixLocal(a: seq<Byte>, b: seq<Byte>, m: nat)
    requires forall i: nat :: i < m ==> At(a, i) == At(b, i)
    ensures Prefix(a, m) == Prefix(b, m)
  {
    if m > 0 { PrefixLocal(a, b, m - 1); }
  }

  // Does the code string, read as a fraction, lie in the interval?  Decided on the first m bytes.
  ghost predicate HoldsAt(code: seq<Byte>, iv: Interval, m: nat, ct: nat)
    requires 8 * m == 16 + iv.shift + ct
  {
    iv.low * Pow2(ct) <= Prefix(code, m) < (iv.low + iv.size) * Pow2(ct)
  }

  ghost predicate Holds(code: seq<Byte>, iv: Interval) {
    var m := (iv.shift + 23) / 8;
    HoldsAt(code, iv, m, 8 * m - 16 - iv.shift)
  }

  // One more byte of look-ahead never changes the answer.
  lemma HoldsZoom(code: seq<Byte>, iv: Interval, m: nat, ct: nat)
    requires 8 * m == 16 + iv.shift + ct
    ensures HoldsAt(code, iv, m, ct) <==> HoldsAt(code, iv, m + 1, ct + 8)
  {
    var p, q, t := Pow2(ct), Prefix(code, m), At(code, m);
    Pow2Plus(8, ct);
    assert Pow2(8) == 0x100;
    var a, b := iv.low * p, (iv.low + iv.size) * p;
    assert iv.low * Pow2(ct + 8) == 0x100 * a;
    assert (iv.low + iv.size) * Pow2(ct + 8) == 0x100 * b;
    assert Prefix(code, m + 1) == 0x100 * q + t;
  }

  lemma {:induction false} HoldsAnywhere(code: seq<Byte>, iv: Interval, m: nat, ct: nat)
    requires 8 * m == 16 + iv.shift + ct
    ensures Holds(code, iv) <==> HoldsAt(code, iv, m, ct)
    decreases ct
  {
    if ct >= 8 {
      HoldsZoom(code, iv, m - 1, ct - 8);
      HoldsAnywhere(code, iv, m - 1, ct - 8);
    } else {
      assert m == (iv.shift + 23) / 8;
    }
  }

  lemma HoldsDouble(code: seq<Byte>, iv: Interval)
    requires iv.Inside() && iv.size < 0x8000
    ensures Holds(code, Double(iv)) <==> Holds(code, iv)
  {
    var m := (iv.shift + 24) / 8;
    var ct := 8 * m - 16 - (iv.shift + 1);
    HoldsAnywhere(code, iv, m, ct + 1);
    HoldsAnywhere(code, Double(iv), m, ct);
    Pow2Plus(1, ct);
    MulShift(iv.low, Pow2(ct));
    MulShift(iv.low + iv.size, Pow2(ct));
  }

  lemma {:induction false} HoldsRenorm(code: seq<Byte>, iv: Interval)
    requires iv.Inside()
    ensures Holds(code, Renorm(iv)) <==> Holds(code, iv)
    decreases 0x8000 - iv.size
  {
    if iv.size < 0x8000 {
      HoldsDouble(code, iv);
      HoldsRenorm(code, Double(iv));
    }
  }

  // The two parts of a split are disjoint and cover the interval.
  lemma HoldsSplit(code: seq<Byte>, iv: Interval, sv: Byte)
    requires iv.Normal() && IsStat(sv)
    ensures Holds(code, iv) <==> Holds(code, Split(iv, sv, 0)) || Holds(code, Split(iv, sv, 1))
    ensures !(Holds(code, Split(iv, sv, 0)) && Holds(code, Split(iv, sv, 1)))
  {
    HoldsParts(code, iv, iv.size - Qe(sv));
    assert TakesUpper(sv, iv.size, 0) != TakesUpper(sv, iv.size, 1);
  }

  lemma HoldsParts(code: seq<Byte>, iv: Interval, rest: nat)
    requires rest <= iv.size
    ensures var lower := Interval(iv.low, rest, iv.shift);
      var upper := Interval(iv.low + rest, iv.size - rest, iv.shift);
      && (Holds(code, iv) <==> Holds(code, lower) || Holds(code, upper))
      && !(Holds(code, lower) && Holds(code, upper))
  {
    var p := Pow2(8 * ((iv.shift + 23) / 8) - 16 - iv.shift);
    MulLe(iv.low, iv.low + rest, p);
    MulLe(iv.low + rest, iv.low + iv.size, p);
  }

  lemma StepsDisjoint(code: seq<Byte>, s: Coder, st: nat)
    requires s.Ready() && st < |s.mem|
    ensures !(Holds(code, Step(s, Decision(st, 0)).iv) && Holds(code, Step(s, Decision(st, 1)).iv))
  {
    HoldsRenorm(code, Split(s.iv, s.mem[st], 0));
    HoldsRenorm(code, Split(s.iv, s.mem[st], 1));
    HoldsSplit(code, s.iv, s.mem[st]);
  }

  lemma HoldsStep(code: seq<Byte>, s: Coder, d: Decision)
    requires s.Ready() && d.st < |s.mem|
    ensures Holds(code, Step(s, d).iv) <==> Holds(code, Split(s.iv, s.mem[d.st], d.bit))
    ensures Holds(code, Step(s, d).iv) ==> Holds(code, s.iv)
  {
    HoldsRenorm(code, Split(s.iv, s.mem[d.st], d.bit));
    HoldsSplit(code, s.iv, s.mem[d.st]);
  }

  lemma {:induction false} HoldsRun(code: seq<Byte>, s: Coder, ds: seq<Decision>)
    requires s.Ready() && InArea(ds, |s.mem|)
    ensures Holds(code, Run(s, ds).iv) ==> Holds(code, s.iv)
    decreases |ds|
  {
    if ds != [] {
      HoldsRun(code, Step(s, ds[0]), ds[1..]);
      HoldsStep(code, s, ds[0]);
    }
  }

  // Decodability: a code string in the final interval determines every decision.
  lemma {:induction false} Decodable(code: seq<Byte>, s: Coder, d: Decision, rest: seq<Decision>, bit: Bit)
    requires s.Ready() && d.st < |s.mem| && InArea(rest, |s.mem|)
    requires Holds(code, Run(Step(s, d), rest).iv)
    requires Holds(code, Step(s, Decision(d.st, bit)).iv)
    ensures bit == d.bit
  {
    HoldsRun(code, Step(s, d), rest);
    StepsDisjoint(code, s, d.st);
  }

  // ----- the shifts and table look-ups of the C code -----

  // c << n for the bit counts that occur
  function ShiftLeft(c: nat, n: nat): nat
    requires n <= 11
  {
    match n
    case 0 => c
    case 1 => 2 * c
    case 2 => 4 * c
    case 3 => 8 * c
    case 4 => 0x10 * c
    case 5 => 0x20 * c
    case 6 => 0x40 * c
    case 7 => 0x80 * c
    case 8 => 0x100 * c
    case 9 => 0x200 * c
    case 10 => 0x400 * c
    case _ => 0x800 * c
  }

  lemma {:induction false} ShiftLeftPow2(c: nat, n: nat)
    requires n <= 11
    ensures ShiftLeft(c, n) == c * Pow2(n)
  {
    if n > 0 {
      ShiftLeftPow2(c, n - 1);
      MulShift(c, Pow2(n - 1));
      ShiftLeftNext(c, n);
    }
  }

  lemma ShiftLeftNext(c: nat, n: nat)
    requires 0 < n <= 11
    ensures ShiftLeft(c, n) == 2 * ShiftLeft(c, n - 1)
  {
  }

  // Fetch values from the compact representation of Table D.2.
  method Fetch(sv: Byte) returns (qe: nat, nl: Byte, nm: Byte)
    requires IsStat(sv)
    ensures qe == Qe(sv)
    ensures XorMps(sv, nl) == NextLps(sv) && XorMps(sv, nm) == NextMps(sv)
  {
    qe := JpegAritab(sv % 0x80);
    nl := qe % 0x100;
    qe := qe / 0x100;
    nm := qe % 0x100;
    qe := qe / 0x100;
  }
}
