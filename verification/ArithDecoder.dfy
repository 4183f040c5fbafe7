module ArithDecoder {
  import opened Numbers
  import opened ArithInterval
  import opened ArithCode

  lemma StartHolds(code: seq<Byte>)
    ensures START.Inside() && Holds(code, START)
    ensures Prefix(code, 0) == 0 && Prefix(code, 1) == At(code, 0)
    ensures Prefix(code, 2) == 0x100 * At(code, 0) + At(code, 1)
  {
    Pow2Consts();
    assert Prefix(code, 1) == At(code, 0);
    assert Prefix(code, 2) == 0x100 * At(code, 0) + At(code, 1) < 0x10000;
    assert HoldsAt(code, START, 2, 0);
    HoldsAnywhere(code, START, 2, 0);
  }

  // c is what remains of the first m code bytes after the low end of the interval is taken away.
  ghost predicate Remainder(code: seq<Byte>, m: nat, c: nat, ct: nat, iv: Interval) {
    && iv.Inside()
    && 8 * m == 16 + iv.shift + ct
    && c + iv.low * Pow2(ct) == Prefix(code, m)
    && Holds(code, iv)
  }

  lemma RemainderShift(code: seq<Byte>, m: nat, c: nat, ct: nat, iv: Interval)
    requires Remainder(code, m, c, ct, iv) && ct > 0 && iv.size < 0x8000
    ensures Remainder(code, m, c, ct - 1, Double(iv))
  {
    HoldsDouble(code, iv);
    MulShift(iv.low, Pow2(ct - 1));
  }

  lemma RemainderByte(code: seq<Byte>, m: nat, c: nat, iv: Interval)
    requires Remainder(code, m, c, 0, iv) && iv.size < 0x8000
    ensures Remainder(code, m + 1, c * 0x100 + At(code, m), 7, Double(iv))
  {
    HoldsDouble(code, iv);
    assert Pow2(7) == 0x80;
  }

  // Registers of the decoder: two initial bytes are still to be read, or c is a remainder.
  ghost predicate Tracking(code: seq<Byte>, m: nat, c: int, a: int, ct: int, iv: Interval) {
    if ct < 0 then
      && iv == START && a == 0
      && ((m == 0 && ct == -16) || (m == 1 && ct == -8))
      && c == Prefix(code, m)
    else
      ct <= 7 && a == iv.size && c >= 0 && Remainder(code, m, c, ct, iv)
  }

  lemma TrackingHolds(code: seq<Byte>, m: nat, c: int, a: int, ct: int, iv: Interval)
    requires Tracking(code, m, c, a, ct, iv) && ct >= 0
    ensures Holds(code, iv) && iv.size == a
  {
  }

  lemma ShiftTracking(code: seq<Byte>, m: nat, c: int, a: int, ct: int, iv: Interval)
    requires Tracking(code, m, c, a, ct, iv) && a < 0x8000
    ensures ct > 0 ==> Tracking(code, m, c, a * 2, ct - 1, Double(iv))
    ensures ct == 0 ==> Tracking(code, m + 1, c * 0x100 + At(code, m), a * 2, 7, Double(iv))
    ensures ct == -16 ==> Tracking(code, m + 1, c * 0x100 + At(code, m), 0, -8, START)
    ensures ct == -8 ==> Tracking(code, m + 1, c * 0x100 + At(code, m), 0x10000, 0, START)
  {
    if ct > 0 {
      RemainderShift(code, m, c, ct, iv);
    } else if ct == 0 {
      RemainderByte(code, m, c, iv);
    } else {
      StartHolds(code);
    }
  }

  // The comparison of c against the scaled size of the lower part finds the part that holds the code.
  lemma RemainderSplit(code: seq<Byte>, m: nat, c: nat, ct: nat, iv: Interval, sv: Byte, bit: Bit)
    requires Remainder(code, m, c, ct, iv) && iv.Normal() && IsStat(sv)
    requires TakesUpper(sv, iv.size, bit) <==> c >= (iv.size - Qe(sv)) * Pow2(ct)
    ensures var rest, part := iv.size - Qe(sv), Split(iv, sv, bit);
      Remainder(code, m, if TakesUpper(sv, iv.size, bit) then c - rest * Pow2(ct) else c, ct, part)
  {
    HoldsAnywhere(code, iv, m, ct);
    HoldsAnywhere(code, Split(iv, sv, bit), m, ct);
    MulDist(iv.low, iv.size - Qe(sv), Pow2(ct));
  }

  // What is left of the code string, after one more byte or at its end.
  lemma TailStep(code: seq<Byte>, m: nat, b: Byte, next: seq<Byte>, more: bool)
    requires (if m <= |code| then code[m..] else []) == if more then [b] + next else []
    requires !more ==> b == 0 && next == []
    ensures At(code, m) == b && (if m + 1 <= |code| then code[m + 1..] else []) == next
  {
    if more {
      assert code[m..] == [b] + next;
      assert code[m..][0] == b && code[m..][1..] == next;
      assert code[m + 1..] == code[m..][1..];
    }
  }

  class Decoder {
    var c: int
    var a: int
    var ct: int
    const input: seq<Byte>      // bytes of the data source
    var pos: nat                // how many of them have been taken
    var unreadMarker: Byte      // 0 while no marker has been met
    var lastDcVal: seq<int>     // the predictors
    var dcContext: seq<nat>     // what the previous difference was like
    const stats: array<Byte>
    ghost var code: seq<Byte>   // data bytes of this segment
    ghost var m: nat            // how many code bytes are in c
    ghost var iv: Interval      // the ideal interval, not yet renormalized

    ghost var landing: (Byte, seq<Byte>) // the marker that ends this segment, and what follows it

    constructor (input: seq<Byte>, comps: nat)
      ensures fresh(stats) && this.input == input && pos == 0 && |lastDcVal| == comps
      ensures AtStart()
    {
      stats := new Byte[AREA_SIZE](k => if k == FIXED_BIN then 113 else 0);
      lastDcVal, dcContext := seq(comps, _ => 0), seq(comps, _ => 0);
      this.input := input;
      c, a, ct := 0, 0, -16;
      pos, unreadMarker := 0, 0;
      code, m, iv := Unstuff(input), 0, START;
      landing := if Ends(input) then MarkerAt(input) else (0, []);
      new;
      assert input[0..] == input;
      assert stats[..] == FreshStats();
      Start();
    }

    // At the start of a scan or restart interval.
    ghost predicate AtStart()
      reads this, stats
    {
      && pos <= |input| && Valid() && State() == Coder(START, FreshStats())
      && lastDcVal == seq(|lastDcVal|, _ => 0) && dcContext == seq(|lastDcVal|, _ => 0)
      && code == Unstuff(input[pos..])
      && (Ends(input[pos..]) ==> MarkerAhead() && landing == MarkerAt(input[pos..]))
    }

    lemma Start()
      requires pos <= |input| && c == a == 0 && ct == -16 && m == 0 && unreadMarker == 0 && iv == START
      requires code == Unstuff(input[pos..]) && stats[..] == FreshStats()
      ensures Valid() && State() == Coder(START, FreshStats())
    {
      assert Prefix(code, 0) == 0;
    }

    // A decoder at the start of a segment that the encoder wrote is in step with it.
    lemma Synchronized(bytes: seq<Byte>, marker: Byte, rest: seq<Byte>, ds: seq<Decision>)
      requires AtStart() && Segment(bytes, ds) && 0 < marker < 0xFF
      requires input[pos..] == bytes + [0xFF, marker] + rest
      ensures InSync(ds) && landing == (marker, rest)
    {
      hide Valid, Run;
      var code0 :| bytes == Stuff(code0) && (code0 != [] ==> code0[|code0| - 1] != 0)
                   && Holds(code0, Run(Coder(START, FreshStats()), ds).iv);
      UnstuffStuff(code0, marker, rest);
    }

    // The fields that arith_decode leaves alone.
    ghost function Others(): (seq<int>, seq<nat>, (Byte, seq<Byte>))
      reads this
    {
      (lastDcVal, dcContext, landing)
    }

    // Data still to come.
    ghost predicate Ahead()
      reads this
    {
      && pos <= |input|
      && (if unreadMarker != 0 then [] else Unstuff(input[pos..])) == (if m <= |code| then code[m..] else [])
    }

    ghost predicate MarkerAhead()
      reads this
      requires pos <= |input|
    {
      if unreadMarker != 0 then landing == (unreadMarker, input[pos..])
      else Ends(input[pos..]) && landing == MarkerAt(input[pos..])
    }

    ghost predicate Valid()
      reads this, stats
      ensures Valid() ==> stats.Length == AREA_SIZE
    {
      && Ahead() && Tracking(code, m, c, a, ct, iv) && iv.Inside()
      && GoodStats(stats[..])
    }

    ghost function State(): (s: Coder)
      requires Valid()
      reads this, stats
      ensures s.Ready()
    {
      Coder(Renorm(iv), stats[..])
    }

    // data is a stuffed zero and the marker still lies ahead, or data is its code.
    ghost predicate Reached(mark: (Byte, seq<Byte>), data: Byte)
      requires pos <= |input|
      reads this
    {
      if data == 0 then Ends(input[pos..]) && MarkerAt(input[pos..]) == mark else mark == (data, input[pos..])
    }

    // After 0xFF: swallow extra 0xFF bytes, then a stuffed zero or a marker code.
    method SkipFill() returns (ok: bool, data: Byte)
      requires pos <= |input|
      modifies this`pos
      ensures old(pos) <= pos <= |input|
      ensures ok ==> data != 0xFF
      ensures ok ==> AfterFF(old(input[pos..])) == if data == 0 then [0xFF] + Unstuff(input[pos..]) else []
      ensures EndsAfterFF(old(input[pos..])) ==>
        ok && Reached(MarkerAfterFF(old(input[pos..])), data)
    {
      ghost var start := input[pos..];
      data := 0xFF;
      while data == 0xFF
        invariant old(pos) <= pos <= |input|
        invariant data == 0xFF ==> AfterFF(start) == AfterFF(input[pos..])
        invariant data != 0xFF ==> AfterFF(start) == if data == 0 then [0xFF] + Unstuff(input[pos..]) else []
        invariant EndsAfterFF(start) && data == 0xFF ==>
          EndsAfterFF(input[pos..]) && MarkerAfterFF(input[pos..]) == MarkerAfterFF(start)
        invariant EndsAfterFF(start) && data != 0xFF ==> Reached(MarkerAfterFF(start), data)
        decreases |input| - pos
      {
        if pos == |input| {
          return false, 0;
        }
        Advance(pos);
        data := input[pos];
        pos := pos + 1;
      }
      return true, data;
    }

    lemma Advance(p: nat)
      requires p < |input|
      ensures input[p..] != [] && input[p..][0] == input[p] && input[p..][1..] == input[p + 1..]
    {
    }

    // Fetch the next data byte; fails when the source runs dry before a marker.
    method GetData() returns (ok: bool, data: Byte)
      requires Ahead()
      modifies this`pos, this`unreadMarker, this`m
      ensures ok ==> Ahead() && m == old(m) + 1 && data == At(code, old(m))
      ensures old(MarkerAhead()) ==> ok && MarkerAhead()
    {
      data := 0;
      if unreadMarker == 0 {
        if pos == |input| {
          return false, 0;
        }
        Advance(pos);
        data := input[pos];
        pos := pos + 1;
        if data == 0xFF {
          ok, data := SkipFill();
          if !ok {
            return false, 0;
          }
          if data == 0 {
            data := 0xFF;
          } else {
            unreadMarker := data;
            data := 0;
          }
        }
      }
      TailStep(code, m, data, if unreadMarker == 0 then Unstuff(input[pos..]) else [], unreadMarker == 0);
      m := m + 1;
      return true, data;
    }

    // The byte enters c below the bits in use; the start of a segment takes two of them before a is set.
    method InsertByte() returns (ok: bool)
      requires Ahead() && ct < 0
      modifies this`c, this`a, this`ct, this`pos, this`unreadMarker, this`m
      ensures ok ==> Ahead() && m == old(m) + 1 && c == old(c) * 0x100 + At(code, old(m))
      ensures ok ==> ct == if old(ct) < -8 then old(ct) + 9 else old(ct) + 8
      ensures ok ==> a == if old(ct) == -9 then 0x8000 else old(a)
      ensures old(MarkerAhead()) ==> ok && MarkerAhead()
    {
      var data;
      ok, data := GetData();
      if !ok {
        return false;
      }
      c := c * 0x100 + data;
      ct := ct + 8;
      if ct < 0 {
        ct := ct + 1;
        if ct == 0 {
          a := 0x8000;
        }
      }
    }

    // One round of the renormalization loop.
    method Shift() returns (ok: bool)
      requires Valid() && a < 0x8000
      modifies this`c, this`a, this`ct, this`pos, this`unreadMarker, this`m, this`iv
      ensures ok ==> Ahead() && Tracking(code, m, c, a, ct, iv)
      ensures ok ==> if old(ct) < 0 then iv == START && ct > old(ct) else ct >= 0 && iv == Double(old(iv))
      ensures old(MarkerAhead()) ==> ok && MarkerAhead()
    {
      ghost var first := ct < 0;
      ShiftTracking(code, m, c, a, ct, iv);
      ct := ct - 1;
      if ct < 0 {
        ok := InsertByte();
        if !ok {
          return false;
        }
      }
      a := a * 2;
      if !first {
        iv := Double(iv);
      }
      return true;
    }

    // As section D.2.6 of ITU-T T.81 has it: double the interval, fetching bytes, until it is large enough.
    method Renormalize() returns (ok: bool)
      requires Valid()
      modifies this`c, this`a, this`ct, this`pos, this`unreadMarker, this`m, this`iv
      ensures ok ==> Valid() && ct >= 0 && iv == Renorm(old(iv)) && a == iv.size
      ensures old(MarkerAhead()) ==> ok && MarkerAhead()
    {
      while a < 0x8000
        invariant Valid() && Renorm(iv) == Renorm(old(iv))
        invariant old(MarkerAhead()) ==> MarkerAhead()
        decreases if ct < 0 then -ct else 0, 0x8000 - a
      {
        ok := Shift();
        if !ok {
          return false;
        }
      }
      return true;
    }

    // The interval part of arith_decode: which bit, and which statistics update.
    method Divide(sv: Byte, qe: nat) returns (bit: Bit, update: Update)
      requires Valid() && ct >= 0 && iv.Normal() && IsStat(sv) && qe == Qe(sv)
      modifies this`c, this`a, this`iv
      ensures Valid() && iv == Split(old(iv), sv, bit)
      ensures NextStat(sv, old(a), bit) ==
        match update case Keep => sv case AfterLps => NextLps(sv) case AfterMps => NextMps(sv)
    {
      hide Unstuff, AfterFF, NextLps, NextMps, Holds, Remainder, Renorm;
      var temp := a - qe;
      a := temp;
      ShiftLeftPow2(temp, ct);
      temp := ShiftLeft(temp, ct);
      ghost var c0 := c;
      if c >= temp {
        c := c - temp;
        if a < qe {
          a := qe;
          bit, update := sv / 0x80, AfterMps;
        } else {
          a := qe;
          bit, update := 1 - sv / 0x80, AfterLps;
        }
      } else if a < 0x8000 {
        if a < qe {
          bit, update := 1 - sv / 0x80, AfterLps;
        } else {
          bit, update := sv / 0x80, AfterMps;
        }
      } else {
        bit, update := sv / 0x80, Keep;
      }
      RemainderSplit(code, m, c0, ct, iv, sv, bit);
      iv := Split(iv, sv, bit);
    }

    // arith_decode: the bit is the one whose part of the interval holds the code string.
    method Decode(st: nat) returns (ok: bool, bit: Bit)
      requires Valid() && st < stats.Length
      modifies this`c, this`a, this`ct, this`pos, this`unreadMarker, this`m, this`iv, stats
      ensures ok ==> Valid() && State() == Step(old(State()), Decision(st, bit))
      ensures ok ==> Holds(code, State().iv)
      ensures old(MarkerAhead()) ==> ok && MarkerAhead()
    {
      hide Split, Qe, NextLps, NextMps, XorMps, Holds, Tracking, Unstuff, AfterFF, Renorm;
      ok := Renormalize();
      if !ok {
        return false, 0;
      }
      var sv := stats[st];
      var qe, nl, nm := Fetch(sv);
      ghost var area, size := stats[..], a;
      var update;
      bit, update := Divide(sv, qe);
      match update {
        case AfterLps => stats[st] := XorMps(sv, nl);
        case AfterMps => stats[st] := XorMps(sv, nm);
        case Keep =>
      }
      assert stats[..] == area[st := stats[st]];
      StatsStep(area, st, size, bit);
      TrackingHolds(code, m, c, a, ct, iv);
      HoldsRenorm(code, iv);
      return true, bit;
    }

    // The rest of the segment codes exactly the decisions ds.
    ghost predicate InSync(ds: seq<Decision>)
      requires Valid()
      reads this, stats
    {
      MarkerAhead() && InArea(ds, stats.Length) && Holds(code, Run(State(), ds).iv)
    }

    method ReadBit(st: nat, ghost ds: seq<Decision>) returns (ok: bool, bit: Bit)
      requires Valid() && st < stats.Length
      modifies this`c, this`a, this`ct, this`pos, this`unreadMarker, this`m, this`iv, stats
      ensures ok ==> Valid()
      ensures old(InSync(ds)) && ds != [] && ds[0].st == st ==> ok && bit == ds[0].bit && InSync(ds[1..])
    {
      ghost var s := State();
      ok, bit := Decode(st);
      if old(InSync(ds)) && ds != [] && ds[0].st == st {
        Decodable(code, s, ds[0], ds[1..], bit);
      }
    }

    method SetDc(ci: nat, value: int, context: nat)
      requires Valid() && ci < |lastDcVal| == |dcContext|
      modifies this`lastDcVal, this`dcContext
      ensures Valid() && State() == old(State()) && code == old(code)
      ensures forall ds :: old(InSync(ds)) ==> InSync(ds)
      ensures lastDcVal == old(lastDcVal)[ci := value] && dcContext == old(dcContext)[ci := context]
    {
      lastDcVal := lastDcVal[ci := value];
      dcContext := dcContext[ci := context];
    }

    // next_marker: skip whatever data the decoder did not need.
    method NextMarker() returns (ok: bool)
      requires pos <= |input| && unreadMarker == 0
      modifies this`pos, this`unreadMarker
      ensures ok ==> pos <= |input|
      ensures old(MarkerAhead()) ==> ok && unreadMarker == landing.0 && input[pos..] == landing.1
    {
      ghost var live := MarkerAhead();
      var data: Byte := 0;
      while data == 0
        invariant pos <= |input| && unreadMarker == 0
        invariant live ==> Reached(landing, data)
        decreases |input| - pos
      {
        if pos == |input| {
          return false;
        }
        assert input[pos..][1..] == input[pos + 1..];
        data := input[pos];
        pos := pos + 1;
        ghost var first := pos;
        while data != 0xFF
          invariant first <= pos <= |input| && unreadMarker == 0
          invariant live ==> if data == 0xFF then EndsAfterFF(input[pos..]) && MarkerAfterFF(input[pos..]) == landing
                             else Ends(input[pos..]) && MarkerAt(input[pos..]) == landing
          decreases |input| - pos
        {
          if pos == |input| {
            return false;
          }
          assert input[pos..][1..] == input[pos + 1..];
          data := input[pos];
          pos := pos + 1;
        }
        ok, data := SkipFill();
        if !ok {
          return false;
        }
      }
      unreadMarker := data;
      return true;
    }

    // process_restart with read_restart_marker; resync_to_restart is not part of this model.
    method ProcessRestart(num: nat) returns (ok: bool)
      requires Valid() && num < 8
      modifies this, stats
      ensures ok ==> AtStart() && |lastDcVal| == |old(lastDcVal)|
      ensures old(MarkerAhead()) && old(landing).0 == 0xD0 + num ==> ok && input[pos..] == old(landing).1
    {
      ok := true;
      if unreadMarker == 0 {
        ok := NextMarker();
      }
      if !ok || unreadMarker != 0xD0 + num {
        return false;
      }
      unreadMarker := 0;
      Reset();
    }

    method Reset()
      requires stats.Length == AREA_SIZE && stats[FIXED_BIN] == 113 && pos <= |input| && unreadMarker == 0
      modifies this, stats
      ensures AtStart() && |lastDcVal| == |old(lastDcVal)| && pos == old(pos)
    {
      forall k | 0 <= k < FIXED_BIN {
        stats[k] := 0;
      }
      lastDcVal, dcContext := seq(|lastDcVal|, _ => 0), seq(|lastDcVal|, _ => 0);
      c, a, ct := 0, 0, -16;
      code, m, iv := Unstuff(input[pos..]), 0, START;
      landing := if Ends(input[pos..]) then MarkerAt(input[pos..]) else (0, []);
      assert stats[..] == FreshStats();
      Start();
    }
  }

  datatype Update = Keep | AfterLps | AfterMps
}
