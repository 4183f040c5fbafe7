module ArithEncoder {
  import opened Numbers
  import opened ArithInterval
  import opened ArithCode
  import opened ArithShortest

  // Everything already decided about the code string: bytes sent, pending zeros, the buffered byte,
  // stacked 0xFF bytes.
  function Register(code: seq<Byte>, zc: nat, buffer: int, sc: nat): seq<Byte>
    requires -1 <= buffer < 0x100
  {
    code + Zeros(zc) + (if buffer >= 0 then [buffer] else []) + Ones(sc)
  }

  // v shifted left by 27-ct bits: the weight of the bytes sent relative to bit 0 of c.
  function Shifted(v: nat, ct: nat): nat
    requires ct <= 11
  {
    match ct
    case 0 => 0x8000000 * v
    case 1 => 0x4000000 * v
    case 2 => 0x2000000 * v
    case 3 => 0x1000000 * v
    case 4 => 0x800000 * v
    case 5 => 0x400000 * v
    case 6 => 0x200000 * v
    case 7 => 0x100000 * v
    case 8 => 0x80000 * v
    case 9 => 0x40000 * v
    case 10 => 0x20000 * v
    case _ => 0x10000 * v
  }

  // The registers denote exactly the low end of the ideal interval.
  ghost predicate Denotes(reg: seq<Byte>, c: nat, ct: nat, iv: Interval) {
    && ct <= 11
    && iv.shift == 8 * |reg| + 11 - ct
    && iv.low == Shifted(Val(reg), ct) + c
    && 8 * (c + iv.size) <= Shifted(9, ct)
  }

  // Registers at the start of a segment.
  lemma AtOnce()
    ensures Denotes([], 0, 11, START) && START.Inside() && START.Normal()
  {
    assert Val([]) == 0;
  }

  lemma ShiftDenotes(reg: seq<Byte>, c: nat, ct: nat, iv: Interval)
    requires Denotes(reg, c, ct, iv) && iv.Inside() && ct > 0 && iv.size < 0x8000
    ensures Denotes(reg, 2 * c, ct - 1, Double(iv))
  {
  }

  ghost predicate Appended(reg: seq<Byte>, next: seq<Byte>, temp: nat) {
    |next| == |reg| + 1 && Val(next) == 0x100 * Val(reg) + temp
  }

  lemma ByteOutDenotes(reg: seq<Byte>, next: seq<Byte>, c: nat, iv: Interval)
    requires Denotes(reg, c, 0, iv) && iv.Inside()
    requires Appended(reg, next, c / 0x80000)
    ensures Denotes(next, c % 0x80000, 8, iv)
  {
  }

  // A carry cannot run off the front of the code string, and the byte after it is small.
  lemma CarryStops(code: seq<Byte>, zc: nat, buffer: int, sc: nat, c: nat, iv: Interval)
    requires -1 <= buffer < 0x100 && (buffer == -1 ==> code == [] && zc == 0)
    requires Denotes(Register(code, zc, buffer, sc), c, 0, iv) && iv.Inside() && c / 0x80000 > 0xFF
    ensures buffer >= 0 && c / 0x80000 < 0x121
  {
    if buffer == -1 {
      assert Register(code, zc, buffer, sc) == Ones(sc);
      NoCarryYet(sc, c, iv);
      assert false;
    }
  }

  lemma NoCarryYet(sc: nat, c: nat, iv: Interval)
    requires Denotes(Ones(sc), c, 0, iv) && iv.Inside()
    ensures c / 0x80000 <= 0xFF
  {
    ValOnes(sc);
    Pow2Plus(8 * sc, 11);
    assert Pow2(11) == 0x800;
  }

  class Encoder {
    var c: int
    var a: int
    var sc: int
    var zc: int
    var ct: int
    var buffer: int
    var out: seq<Byte>          // bytes handed to the destination manager
    var lastDcVal: seq<int>     // the predictors
    var dcContext: seq<nat>     // what the previous difference was like
    const stats: array<Byte>    // dc_stats, ac_stats and fixed_bin, addressed by offset
    ghost var before: seq<Byte> // the part of out that precedes this entropy-coded segment
    ghost var code: seq<Byte>   // data bytes of this segment sent so far, without stuffing
    ghost var iv: Interval      // the ideal interval
    ghost var origin: seq<Byte> // statistics at the start of the segment
    ghost var log: seq<Decision> // decisions coded in this segment

    constructor (comps: nat)
      ensures fresh(stats) && out == before == [] && |lastDcVal| == comps
      ensures AtStart()
    {
      stats := new Byte[AREA_SIZE](k => if k == FIXED_BIN then 113 else 0);
      lastDcVal, dcContext := seq(comps, _ => 0), seq(comps, _ => 0);
      c, a, sc, zc, ct, buffer := 0, 0x10000, 0, 0, 11, -1;
      out, before, code, iv := [], [], [], START;
      log, origin := [], FreshStats();
      new;
      assert stats[..] == FreshStats();
      Start();
    }

    // At the start of a scan or restart interval.
    ghost predicate AtStart()
      reads this, stats
    {
      && Traced() && log == [] && origin == FreshStats() && before == out
      && lastDcVal == seq(|lastDcVal|, _ => 0) && dcContext == seq(|lastDcVal|, _ => 0)
    }

    lemma Start()
      requires c == zc == sc == 0 && a == 0x10000 && ct == 11 && buffer == -1
      requires iv == START && code == [] && log == [] && before == out
      requires origin == stats[..] == FreshStats()
      ensures Traced()
    {
      AtOnce();
      assert Register(code, zc, buffer, sc) == [] && before + Stuff([]) == before;
      hide Denotes, Shifted, Pow2, GoodStats, FreshStats, Interval.Inside, Interval.Normal, Val, Register, Stuff, IsStat, Step;
    }

    ghost predicate Sent()
      reads this
    {
      out == before + Stuff(code) && (code != [] ==> code[|code| - 1] != 0)
    }

    // What holds inside the renormalization loop as well.
    ghost predicate Running()
      reads this
    {
      && Sent()
      && 0 <= c && 0 <= sc && 0 <= zc && 0 <= ct <= 11 && -1 <= buffer < 0xFF
      && (buffer == -1 ==> code == [] && zc == 0)
      && iv.Inside() && a == iv.size
      && Denotes(Register(code, zc, buffer, sc), c, ct, iv)
    }

    ghost predicate Valid()
      reads this, stats
    {
      && Running() && 1 <= ct && iv.Normal()
      && GoodStats(stats[..])
    }

    ghost function State(): (s: Coder)
      requires Valid()
      reads this, stats
      ensures s.Ready()
    {
      Coder(iv, stats[..])
    }

    // The coder is where the decisions coded so far have taken it.
    ghost predicate Traced()
      reads this, stats
      ensures Traced() ==> stats.Length == AREA_SIZE
    {
      && Valid()
      && Coder(START, origin).Ready() && InArea(log, |origin|)
      && State() == Run(Coder(START, origin), log)
    }

    // The fields that arith_encode leaves alone.
    ghost function Others(): (seq<Byte>, seq<int>, seq<nat>, seq<Byte>)
      reads this
    {
      (before, lastDcVal, dcContext, origin)
    }

    method EmitByte(val: Byte)
      modifies this`out
      ensures out == old(out) + [val]
    {
      out := out + [val];
    }

    // A data byte and the zero stuffed after 0xFF.
    method EmitData(val: Byte)
      requires out == before + Stuff(code)
      modifies this`out, this`code
      ensures code == old(code) + [val] && out == before + Stuff(code)
    {
      EmitByte(val);
      if val == 0xFF {
        EmitByte(0x00);
      }
      StuffAppend(code, val);
      code := code + [val];
    }

    // The zeros held back are sent.
    method EmitPendingZeros()
      requires zc >= 0 && out == before + Stuff(code)
      modifies this`out, this`zc, this`code
      ensures zc == 0
      ensures code == old(code) + Zeros(old(zc)) && out == before + Stuff(code)
    {
      while zc > 0
        invariant 0 <= zc <= old(zc)
        invariant code == old(code) + Zeros(old(zc) - zc) && out == before + Stuff(code)
      {
        EmitByte(0x00);
        StuffAppend(code, 0);
        code := code + [0];
        zc := zc - 1;
      }
    }

    // A carry turns the waiting 0xFF bytes to zeros.
    method Overflow()
      requires Sent() && 0 <= buffer < 0xFF && zc >= 0 && sc >= 0
      modifies this`out, this`zc, this`sc, this`code
      ensures Sent() && zc == old(sc) && sc == 0
      ensures code == old(code) + Zeros(old(zc)) + [buffer + 1]
    {
      if buffer >= 0 {
        EmitPendingZeros();
        EmitData(buffer + 1);
      }
      zc := zc + sc;
      sc := 0;
    }

    // The stacked 0xFF bytes are sent, each with its stuffed zero.
    method EmitStacked()
      requires out == before + Stuff(code) && sc > 0
      modifies this`out, this`sc, this`code
      ensures Sent() && sc == 0 && code == old(code) + Ones(old(sc))
    {
      while sc > 0
        invariant 0 <= sc <= old(sc)
        invariant code == old(code) + Ones(old(sc) - sc)
        invariant out == before + Stuff(code)
      {
        EmitData(0xFF);
        sc := sc - 1;
      }
    }

    // The buffered byte will not change any more; a zero byte stays pending.
    method SendBuffer()
      requires Sent() && -1 <= buffer < 0xFF && zc >= 0
      modifies this`out, this`zc, this`code
      ensures Sent() && zc >= 0
      ensures code + Zeros(zc) == old(code + Zeros(zc)) + (if buffer >= 0 then [buffer] else [])
    {
      ghost var start := code + Zeros(zc);
      if buffer == 0 {
        zc := zc + 1;
        assert code + Zeros(zc) == start + [0];
      } else if buffer >= 0 {
        EmitPendingZeros();
        EmitByte(buffer);
        StuffAppend(code, buffer);
        code := code + [buffer];
        assert code + Zeros(zc) == start + [buffer];
      }
    }

    // No carry can come any more: the waiting bytes go out as they are.
    method NoOverflow()
      requires Sent() && -1 <= buffer < 0xFF && zc >= 0 && sc >= 0
      modifies this`out, this`zc, this`sc, this`code
      ensures Sent() && zc >= 0 && sc == 0
      ensures code + Zeros(zc) == old(Register(code, zc, buffer, sc))
    {
      SendBuffer();
      ghost var settled := code + Zeros(zc);
      if sc > 0 {
        EmitPendingZeros();
        EmitStacked();
      }
      assert code + Zeros(zc) == settled + Ones(old(sc));
    }

    // The next byte is below 0xFF: nothing before it can overflow any more.
    method PutPlain(next: Byte)
      requires Sent() && 0 <= sc && 0 <= zc && -1 <= buffer < 0xFF && next < 0xFF
      modifies this`out, this`zc, this`sc, this`code, this`buffer
      ensures Sent() && 0 <= zc && sc == 0 && buffer == next
      ensures Register(code, zc, buffer, sc) == old(Register(code, zc, buffer, sc)) + [next]
    {
      NoOverflow();
      buffer := next;
      assert Ones(0) == [];
    }

    // Dispose of the next byte, which may carry into the bytes before it.
    method PutByte(temp: nat)
      requires Sent() && 0 <= sc && 0 <= zc && -1 <= buffer < 0xFF
      requires buffer == -1 ==> code == [] && zc == 0
      requires temp > 0xFF ==> buffer >= 0 && temp < 0x121
      modifies this`out, this`zc, this`sc, this`code, this`buffer
      ensures Sent() && 0 <= sc && 0 <= zc && -1 <= buffer < 0xFF
      ensures buffer == -1 ==> code == [] && zc == 0
      ensures Appended(old(Register(code, zc, buffer, sc)), Register(code, zc, buffer, sc), temp)
    {
      ghost var reg := Register(code, zc, buffer, sc);
      if temp > 0xFF {
        CarryValue(code, zc, buffer, sc, temp % 0x100);
        Overflow();
        buffer := temp % 0x100;
      } else if temp == 0xFF {
        ValAppend(reg, 0xFF);
        sc := sc + 1;
        assert Register(code, zc, buffer, sc) == reg + [0xFF];
      } else {
        ValAppend(reg, temp);
        PutPlain(temp);
      }
    }

    // Eight bits of the code string are complete.
    method ByteOut()
      requires Running() && ct == 0
      modifies this`out, this`zc, this`sc, this`code, this`buffer, this`c, this`ct
      ensures Running() && ct == 8
    {
      ghost var reg := Register(code, zc, buffer, sc);
      var temp := c / 0x80000;
      if temp > 0xFF {
        CarryStops(code, zc, buffer, sc, c, iv);
      }
      PutByte(temp);
      ByteOutDenotes(reg, Register(code, zc, buffer, sc), c, iv);
      c := c % 0x80000;
      ct := ct + 8;
    }

    // Renormalization & data output, section D.1.6.
    method Renormalize()
      requires Running() && ct >= 1 && a < 0x8000
      modifies this`c, this`a, this`sc, this`zc, this`ct, this`buffer, this`out, this`code, this`iv
      ensures Running() && ct >= 1
      ensures iv == Renorm(old(iv))
    {
      while a < 0x8000
        invariant Running() && ct >= 1
        invariant Renorm(iv) == Renorm(old(iv))
        decreases 0x8000 - a
      {
        Shift();
        if ct == 0 {
          ByteOut();
        }
      }
    }

    method Shift()
      requires Running() && ct >= 1 && a < 0x8000
      modifies this`a, this`c, this`ct, this`iv
      ensures Running() && ct == old(ct) - 1 && iv == Double(old(iv))
    {
      ShiftDenotes(Register(code, zc, buffer, sc), c, ct, iv);
      a := a * 2;
      c := c * 2;
      iv := Double(iv);
      ct := ct - 1;
    }

    // The interval part of arith_encode; ready means that no renormalization is required.
    method Narrow(sv: Byte, qe: nat, val: Bit) returns (ready: bool)
      requires Valid() && IsStat(sv) && qe == Qe(sv)
      modifies this`a, this`c, this`iv
      ensures Running() && iv == Split(old(iv), sv, val)
      ensures ready <==> val == Mps(sv) && old(a) - qe >= 0x8000
      ensures ready <==> a >= 0x8000
    {
      SplitDenotes(Register(code, zc, buffer, sc), c, ct, iv, sv, val);
      iv := Split(iv, sv, val);
      a := a - qe;
      if val != sv / 0x80 {
        if a >= qe {
          c := c + a;
          a := qe;
        }
      } else {
        if a >= 0x8000 {
          return true;
        }
        if a < qe {
          c := c + a;
          a := qe;
        }
      }
      return false;
    }

    // arith_encode
    method Encode(st: nat, val: Bit)
      requires Valid() && st < stats.Length
      modifies this`c, this`a, this`sc, this`zc, this`ct, this`buffer, this`out, this`code, this`iv, stats
      ensures Valid()
      ensures State() == Step(old(State()), Decision(st, val))
    {
      hide Split, Qe, NextLps, NextMps, XorMps, Denotes, Stuff, Register;
      var sv := stats[st];
      var qe, nl, nm := Fetch(sv);
      StatsStep(stats[..], st, a, val);
      var ready := Narrow(sv, qe, val);
      if ready {
        assert stats[..] == stats[..][st := sv];
        return;
      }
      ghost var area := stats[..];
      stats[st] := XorMps(sv, if val != sv / 0x80 then nl else nm);
      assert stats[..] == area[st := stats[st]];
      Renormalize();
    }

    // arith_encode, with the decision noted in the log.
    method Put(st: nat, val: Bit)
      requires Traced() && st < stats.Length
      modifies this, stats
      ensures Traced() && Others() == old(Others())
      ensures log == old(log) + [Decision(st, val)]
    {
      hide Valid, Step;
      Encode(st, val);
      RunOne(Run(Coder(START, origin), log), Decision(st, val));
      RunConcat(Coder(START, origin), log, [Decision(st, val)]);
      Note(Decision(st, val));
    }

    ghost method Note(d: Decision)
      requires Valid()
      modifies this`log
      ensures Valid() && State() == old(State()) && log == old(log) + [d]
    {
      log := log + [d];
    }

    method SetDc(ci: nat, value: int, context: nat)
      requires Traced() && ci < |lastDcVal| == |dcContext|
      modifies this`lastDcVal, this`dcContext
      ensures Traced()
      ensures lastDcVal == old(lastDcVal)[ci := value] && dcContext == old(dcContext)[ci := context]
    {
      lastDcVal := lastDcVal[ci := value];
      dcContext := dcContext[ci := context];
    }

    // What is sent agrees with reg, plus a carry, then two bytes of c.
    method PutFinal()
      requires Sent() && 0 <= sc && 0 <= zc && -1 <= buffer < 0xFF && 0 <= c
      requires c >= 0x8000000 ==> buffer >= 0 && c < 0x10000000
      modifies this`out, this`zc, this`sc, this`code
      ensures Sent()
      ensures FinalBytes(old(Register(code, zc, buffer, sc)), code, c)
    {
      ghost var reg := Register(code, zc, buffer, sc);
      if c / 0x8000000 != 0 {
        CarryHead(code, zc, buffer, sc);
        Overflow();
      } else {
        NoOverflow();
      }
      ghost var head := code + Zeros(zc);
      PutTail();
      assert Val(head) == Val(reg) + c / 0x8000000 && |head| == |reg|;
    }

    // Zero bytes at the very end are not sent.
    method PutTail()
      requires Sent() && 0 <= zc && 0 <= c
      modifies this`out, this`zc, this`code
      ensures Sent()
      ensures SameCode(code, old(code) + Zeros(old(zc)) + [c / 0x80000 % 0x100, c / 0x800 % 0x100])
    {
      ghost var head := code + Zeros(zc);
      var b1, b2 := c / 0x80000 % 0x100, c / 0x800 % 0x100;
      TailZero(c);
      if c / 0x800 % 0x10000 != 0 {
        EmitPendingZeros();
        EmitData(b1);
        if b2 != 0 {
          EmitData(b2);
          assert code == head + [b1, b2];
        }
      }
      SameTail(old(code), old(zc), b1, b2);
    }

    // The number in the interval with the most trailing zeros.
    method ChooseC()
      requires Valid()
      modifies this`c
      ensures old(c) <= c < old(c) + a && c % 0x8000 == 0
      ensures c % 0x10000 == 0 || forall x: nat :: old(c) <= x < old(c) + a ==> x % 0x10000 != 0
    {
      var temp := (a - 1 + c) / 0x10000 * 0x10000;
      Chosen(c, a, (a - 1 + c) / 0x10000);
      if temp < c {
        c := temp + 0x8000;
      } else {
        c := temp;
      }
    }

    // finish_pass, section D.1.8: any later byte of the segment may be taken as zero.
    method FinishPass()
      requires Valid()
      modifies this`c, this`sc, this`zc, this`out, this`code
      ensures Sent() && Holds(code, old(iv))
      ensures forall other: seq<Byte> :: Holds(other, old(iv)) ==> |code| <= |other|
    {
      ghost var c0 := c;
      ghost var reg, iv0 := Register(code, zc, buffer, sc), iv;
      ChooseC();
      ghost var f := c;
      FinalFits(code, zc, buffer, sc, c, ct, iv);
      c := ShiftLeft(c, ct);
      PutFinal();
      FinalHolds(reg, code, f, ct, iv0);
      FinalShortest(reg, code, c0, f, ct, iv0);
    }

    // The registers, the predictions and the statistics as start_pass and emit_restart leave them.
    method Reset()
      requires stats.Length == AREA_SIZE && stats[FIXED_BIN] == 113
      modifies this, stats
      ensures AtStart() && |lastDcVal| == |old(lastDcVal)| && out == old(out)
    {
      ClearStats();
      hide Traced, Sent, FreshStats;
      lastDcVal, dcContext := seq(|lastDcVal|, _ => 0), seq(|lastDcVal|, _ => 0);
      c, a, sc, zc, ct, buffer := 0, 0x10000, 0, 0, 11, -1;
      before, code, iv := out, [], START;
      log, origin := [], FreshStats();
      Start();
    }

    // Zero out the statistics areas; the fixed bin keeps its state.
    method ClearStats()
      requires stats.Length == AREA_SIZE && stats[FIXED_BIN] == 113
      modifies stats
      ensures stats[..] == FreshStats()
    {
      forall k | 0 <= k < FIXED_BIN {
        stats[k] := 0;
      }
      assert stats[..] == FreshStats();
    }

    // End of a scan.
    method Finish()
      requires Traced() && origin == FreshStats()
      modifies this`c, this`sc, this`zc, this`out, this`code
      ensures stats[FIXED_BIN] == 113 && stats.Length == AREA_SIZE
      ensures old(before) <= out && Segment(out[|old(before)|..], old(log))
    {
      FinishPass();
      assert out[|before|..] == Stuff(code);
    }

    method EmitRestart(num: nat)
      requires Traced() && origin == FreshStats() && num < 8
      modifies this, stats
      ensures AtStart() && |lastDcVal| == |old(lastDcVal)|
      ensures |old(before)| + 2 <= |out| && old(before) <= out && out[|out| - 2..] == [0xFF, 0xD0 + num]
      ensures Segment(out[|old(before)|..|out| - 2], old(log))
    {
      hide Traced, AtStart, Segment;
      Finish();
      ghost var sent := out;
      EmitByte(0xFF);
      EmitByte(0xD0 + num);
      assert out == sent + [0xFF, 0xD0 + num];
      assert out[|old(before)|..|out| - 2] == sent[|old(before)|..];
      Reset();
    }
  }

  lemma SplitDenotes(reg: seq<Byte>, c: nat, ct: nat, iv: Interval, sv: Byte, bit: Bit)
    requires Denotes(reg, c, ct, iv) && iv.Normal() && IsStat(sv)
    ensures var part := Split(iv, sv, bit);
      Denotes(reg, c + (part.low - iv.low), ct, part)
  {
  }

  lemma CarryValue(code: seq<Byte>, zc: nat, b: Byte, sc: nat, next: Byte)
    requires b < 0xFF
    ensures Appended(Register(code, zc, b, sc), Register(code + Zeros(zc) + [b + 1], sc, next, 0), 0x100 + next)
  {
    ValCarry(code + Zeros(zc), b, sc);
    ValAppend(code + Zeros(zc) + [b + 1] + Zeros(sc), next);
    assert Register(code + Zeros(zc) + [b + 1], sc, next, 0) == code + Zeros(zc) + [b + 1] + Zeros(sc) + [next];
  }

  // ----- termination -----

  // The value with the most trailing zeros in [c, c + a).
  lemma Chosen(c: nat, a: nat, q: nat)
    requires 0x8000 <= a <= 0x10000 && q == (a - 1 + c) / 0x10000
    ensures var f := if 0x10000 * q < c then 0x10000 * q + 0x8000 else 0x10000 * q;
      c <= f < c + a && f % 0x8000 == 0 && (f % 0x10000 == 0 || forall x: nat :: c <= x < c + a ==> x % 0x10000 != 0)
  {
    NoneRounder(c, a, q);
    Quotient(a - 1 + c, q);
    Multiple(2 * q);
    Multiple(2 * q + 1);
  }

  // Above the last multiple of 2^16 there is no other.
  lemma NoneRounder(c: nat, a: nat, q: nat)
    requires a >= 1 && q == (a - 1 + c) / 0x10000
    ensures 0x10000 * q % 0x10000 == 0
    ensures 0x10000 * q < c ==> forall x: nat :: c <= x < c + a ==> x % 0x10000 != 0
  {
  }

  lemma Quotient(x: nat, q: nat)
    requires q == x / 0x10000
    ensures 0x10000 * q <= x < 0x10000 * q + 0x10000
  {
  }

  lemma Multiple(k: nat)
    ensures (0x8000 * k) % 0x8000 == 0
  {
  }

  // Carry, byte and byte of a terminated C register.
  lemma Digits(c: nat)
    requires c % 0x800 == 0
    ensures c == 0x8000000 * (c / 0x8000000) + 0x80000 * (c / 0x80000 % 0x100) + 0x800 * (c / 0x800 % 0x100)
  {
    var d := c / 0x800;
    assert c == 0x800 * d;
    assert c / 0x80000 == d / 0x100;
    assert c / 0x8000000 == d / 0x100 / 0x100;
  }

  lemma ShiftLeftSplit(v: nat, f: nat, ct: nat)
    requires ct <= 11
    ensures ShiftLeft(Shifted(v, ct) + f, ct) == 0x8000000 * v + ShiftLeft(f, ct)
  {
  }

  lemma ShiftLeftZeros(f: nat, ct: nat)
    requires 1 <= ct <= 11 && f % 0x8000 == 0
    ensures ShiftLeft(f, ct) % 0x800 == 0
  {
    var q := f / 0x8000;
    assert f == 0x8000 * q;
    assert ShiftLeft(f, ct) == 0x800 * (0x10 * ShiftLeft(q, ct));
  }

  // The final carry cannot run off the front either.
  lemma FinalFits(code: seq<Byte>, zc: nat, buffer: int, sc: nat, f: nat, ct: nat, iv: Interval)
    requires -1 <= buffer < 0x100 && (buffer == -1 ==> code == [] && zc == 0) && 1 <= ct <= 11
    requires var reg := Register(code, zc, buffer, sc);
      && iv.Inside() && iv.shift == 8 * |reg| + 11 - ct
      && Shifted(Val(reg), ct) + f < iv.low + iv.size
    requires f + 1 <= Shifted(2, ct)
    ensures ShiftLeft(f, ct) < 0x10000000
    ensures ShiftLeft(f, ct) >= 0x8000000 ==> buffer >= 0
  {
    if buffer == -1 {
      var reg := Register(code, zc, buffer, sc);
      assert reg == Ones(sc);
      ValOnes(sc);
      var g := Shifted(Val(reg), ct) + f;
      ShiftLeftSplit(Val(reg), f, ct);
      ShiftedBound(g, sc, ct, iv.shift);
    }
  }

  lemma ShiftedBound(g: nat, sc: nat, ct: nat, shift: nat)
    requires ct <= 11 && shift == 8 * sc + 11 - ct && g < 0x10000 * Pow2(shift)
    ensures ShiftLeft(g, ct) < 0x8000000 * Pow2(8 * sc)
  {
    hide *;
    Pow2Eleven();
    ShiftLeftPow2(g, ct);
    Pow2Plus(8 * sc, 11);
    Pow2Plus(shift, ct);
    MulLess(g, 0x10000 * Pow2(shift), Pow2(ct));
    MulScale(0x10000, Pow2(shift), Pow2(ct));
  }

  // Prefixes of a code string that ends in two given bytes.
  lemma PrefixTail(code: seq<Byte>, head: seq<Byte>, b1: Byte, b2: Byte)
    requires SameCode(code, head + [b1, b2])
    ensures Prefix(code, |head| + 2) == 0x10000 * Val(head) + 0x100 * b1 + b2
    ensures Prefix(code, |head| + 4) == 0x10000 * Prefix(code, |head| + 2)
  {
    var m, full := |head|, head + [b1, b2];
    PrefixLocal(code, head, m);
    assert At(code, m) == At(full, m) == b1;
    assert At(code, m + 1) == At(full, m + 1) == b2;
    assert At(code, m + 2) == At(full, m + 2) == 0;
    assert At(code, m + 3) == At(full, m + 3) == 0;
    assert Prefix(code, m + 1) == 0x100 * Prefix(code, m) + b1;
    assert Prefix(code, m + 3) == 0x100 * Prefix(code, m + 2);
  }

  lemma FinalPrefix(reg: seq<Byte>, code: seq<Byte>, c: nat)
    requires FinalBytes(reg, code, c) && c % 0x800 == 0
    ensures 0x800 * Prefix(code, |reg| + 2) == 0x8000000 * Val(reg) + c
    ensures Prefix(code, |reg| + 4) == 0x10000 * Prefix(code, |reg| + 2)
  {
    var b1, b2 := c / 0x80000 % 0x100, c / 0x800 % 0x100;
    var head: seq<Byte> :|
      && |head| == |reg| && Val(head) == Val(reg) + c / 0x8000000
      && SameCode(code, head + [b1, b2]);
    PrefixTail(code, head, b1, b2);
    Digits(c);
  }

  lemma FinalHolds(reg: seq<Byte>, code: seq<Byte>, f: nat, ct: nat, iv: Interval)
    requires 1 <= ct <= 11 && f % 0x8000 == 0 && iv.shift == 8 * |reg| + 11 - ct
    requires iv.low <= Shifted(Val(reg), ct) + f < iv.low + iv.size
    requires FinalBytes(reg, code, ShiftLeft(f, ct))
    ensures Holds(code, iv)
  {
    var g, p, c := Shifted(Val(reg), ct) + f, Prefix(code, |reg| + 2), ShiftLeft(f, ct);
    ShiftLeftZeros(f, ct);
    FinalPrefix(reg, code, c);
    ShiftLeftSplit(Val(reg), f, ct);
    ShiftLeftPow2(g, ct);
    Scale32(g, ct, p);
    ValueHolds(code, iv, |reg| + 4, ct + 5, g);
  }

  // And no code string in the interval has fewer bytes.
  lemma FinalShortest(reg: seq<Byte>, code: seq<Byte>, c: nat, f: nat, ct: nat, iv: Interval)
    requires 1 <= ct <= 11 && f % 0x8000 == 0 && iv.shift == 8 * |reg| + 11 - ct && iv.low == Shifted(Val(reg), ct) + c
    requires c <= f < c + iv.size && iv.size <= 0x10000
    requires f % 0x10000 == 0 || forall x: nat :: c <= x < c + iv.size ==> x % 0x10000 != 0
    requires FinalBytes(reg, code, ShiftLeft(f, ct)) && (code != [] ==> code[|code| - 1] != 0)
    ensures forall other: seq<Byte> :: Holds(other, iv) ==> |code| <= |other|
  {
    var g, p := Shifted(Val(reg), ct) + f, Prefix(code, |reg| + 2);
    ShiftLeftZeros(f, ct);
    FinalPrefix(reg, code, ShiftLeft(f, ct));
    ShiftLeftSplit(Val(reg), f, ct);
    ShiftLeftPow2(g, ct);
    Scale32(g, ct, p);
    NotLonger(reg, code, ShiftLeft(f, ct));
    ShiftedRound(Val(reg), ct);
    hide Shifted, Holds, FinalBytes, Prefix, ShiftLeft, Roundest;
    RoundestAbove(Shifted(Val(reg), ct), c, iv.size, f);
    forall other: seq<Byte> | Holds(other, iv)
      ensures |code| <= |other|
    {
      Shortest(code, g, iv, |reg| + 4, ct + 5, other);
    }
  }

  lemma ShiftedRound(v: nat, ct: nat)
    requires ct <= 11
    ensures Shifted(v, ct) % 0x10000 == 0
  {
    assert Shifted(v, ct) == 0x10000 * ShiftLeft(v, 11 - ct);
    hide Shifted, ShiftLeft;
    WholeMultiple(ShiftLeft(v, 11 - ct));
  }

  lemma WholeMultiple(q: nat)
    ensures 0x10000 * q % 0x10000 == 0
  {
  }

  lemma LowBitsSame(s: nat, x: nat)
    requires s % 0x10000 == 0
    ensures (s + x) % 0x10000 == x % 0x10000 && (s + x) % 0x8000 == x % 0x8000
  {
    var d := s / 0x10000;
    SameAbove(d, x / 0x10000, x % 0x10000);
    SameAboveHalf(2 * d, x / 0x8000, x % 0x8000);
  }

  lemma SameAbove(d: nat, q: nat, r: nat)
    requires r < 0x10000
    ensures (0x10000 * d + 0x10000 * q + r) % 0x10000 == r
  {
  }

  lemma SameAboveHalf(d: nat, q: nat, r: nat)
    requires r < 0x8000
    ensures (0x8000 * d + 0x8000 * q + r) % 0x8000 == r
  {
  }

  lemma NotLonger(reg: seq<Byte>, code: seq<Byte>, c: nat)
    requires FinalBytes(reg, code, c) && (code != [] ==> code[|code| - 1] != 0)
    ensures |code| <= |reg| + 2
  {
    if code != [] { assert At(code, |code| - 1) == code[|code| - 1]; }
  }

  // The bytes sent change nothing about the low bits.
  lemma RoundestAbove(s: nat, c: nat, size: nat, f: nat)
    requires s % 0x10000 == 0 && size <= 0x10000 && c <= f < c + size && f % 0x8000 == 0
    requires f % 0x10000 == 0 || forall x: nat :: c <= x < c + size ==> x % 0x10000 != 0
    ensures Roundest(s + c, size, s + f)
  {
    LowBitsSame(s, f);
    if f % 0x10000 != 0 {
      forall x: nat | s + c <= x < s + c + size
        ensures x % 0x10000 != 0
      {
        LowBitsSame(s, x - s);
      }
    }
    RoundestIs(s + c, size, s + f);
  }

  lemma ValueHolds(code: seq<Byte>, iv: Interval, m: nat, ct: nat, g: nat)
    requires 8 * m == 16 + iv.shift + ct
    requires Prefix(code, m) == g * Pow2(ct) && iv.low <= g < iv.low + iv.size
    ensures Holds(code, iv)
  {
    var p := Pow2(ct);
    MulLe(iv.low, g, p);
    MulLe(g + 1, iv.low + iv.size, p);
    assert (g + 1) * p == g * p + p;
    HoldsAnywhere(code, iv, m, ct);
  }

  lemma Scale32(g: nat, ct: nat, x: nat)
    requires 0x800 * x == g * Pow2(ct)
    ensures 0x10000 * x == g * Pow2(ct + 5)
  {
    Pow2Plus(5, ct);
    assert Pow2(5) == 0x20;
    MulScale(g, 0x20, Pow2(ct));
  }

  lemma MulScale(a: nat, b: nat, c: nat)
    ensures a * (b * c) == b * (a * c)
  {
  }

  lemma TailZero(c: nat)
    ensures c / 0x800 % 0x10000 == 0x100 * (c / 0x80000 % 0x100) + c / 0x800 % 0x100
  {
    var d := c / 0x800;
    assert c / 0x80000 == d / 0x100;
  }

  // Dropping trailing zeros does not change the code string.
  lemma SameTail(code: seq<Byte>, zc: nat, b1: Byte, b2: Byte)
    ensures var full := code + Zeros(zc) + [b1, b2];
      && (b2 == 0 ==> SameCode(code + Zeros(zc) + [b1], full))
      && (b1 == b2 == 0 ==> SameCode(code, full))
  {
  }

  lemma CarryHead(code: seq<Byte>, zc: nat, b: Byte, sc: nat)
    requires b < 0xFF
    ensures Val(code + Zeros(zc) + [b + 1] + Zeros(sc)) == Val(Register(code, zc, b, sc)) + 1
  {
    ValCarry(code + Zeros(zc), b, sc);
  }

  // code, with zeros supplied, is reg plus the carry out of c, then bits 26..11 of c.
  ghost predicate FinalBytes(reg: seq<Byte>, code: seq<Byte>, c: nat) {
    exists head: seq<Byte> ::
      && |head| == |reg| && Val(head) == Val(reg) + c / 0x8000000
      && SameCode(code, head + [c / 0x80000 % 0x100, c / 0x800 % 0x100])
  }
}
