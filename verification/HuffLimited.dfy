// Blocks of a sequential scan of which only the first coefficients are wanted, or none: the rest is decoded and dropped.
module HuffLimited {
  import opened Numbers
  import opened ArithModel
  import opened Scans
  import opened HuffTable
  import opened HuffTokens
  import opened HuffLookup
  import opened HuffCursor
  import opened HuffWrites
  import opened HuffReader
  import opened HuffEobRun
  import opened HuffValues
  import opened HuffAcFirst
  import opened HuffDc
  import opened HuffBlock
  import opened HuffMcu

  // DROP_BITS over the bits of a value.
  method DropValue(d: Reader, n: nat, ghost v: int, ghost env: Env, ghost goal: seq<Token>) returns (ok: bool)
    requires d.Valid() && 1 <= n <= 16 && GoodEnv(env)
    modifies d`pos, d`unreadMarker, d`getBuffer, d`bitsLeft, d`held, d`insufficientData
    ensures d.Unmarked(ok) && (ok ==> d.Valid())
    ensures old(d.InSync(env, goal)) && goal != [] && goal[0] == Raw(ValueBits(v, n), n) ==>
      (d.avail == |d.input| ==> ok) && (ok ==> d.InSync(env, goal[1..]))
  {
    BitsFit(v, n);
    hide Reader.Valid, Reader.InSync, Pow2, ValueBits;
    var bits;
    ok, bits := d.ReadRaw(n, env, goal);
  }

  lemma BitsFit(v: int, n: nat)
    ensures ValueBits(v, n) < Pow2(n)
  {
  }

  // One symbol of a band whose coefficients are not wanted.
  method DiscardStep(d: Reader, t: nat, tbl: JHuffTbl, dt: DDerived, k: nat, se: nat, ghost env: Env, ghost w: seq<int>, ghost after: seq<Token>)
    returns (ok: bool, more: bool, next: nat)
    requires d.Valid() && GoodEnv(env) && t < |env| && Shared(env[t], tbl, dt) && k <= se < 64
    modifies d`pos, d`unreadMarker, d`getBuffer, d`bitsLeft, d`held, d`insufficientData
    ensures d.Unmarked(ok) && (ok ==> d.Valid() && (more ==> next > k))
    ensures old(AtCoef(d, env, t, w, k, se, after)) && NextCoef(w, k, se) <= se ==>
      (d.avail == |d.input| ==> ok) && (ok ==> more && next <= se + 1 && (next == se + 1 ==> w[se] != 0) && AtCoef(d, env, t, w, next, se, after))
    ensures old(AtCoef(d, env, t, w, k, se, after)) && NextCoef(w, k, se) > se && after != [] && after[0] == Sym(t, 0) ==>
      (d.avail == |d.input| ==> ok) && (ok ==> !more && d.InSync(env, after[1..]))
  {
    hide Symbol, Bits, Tells;
    hide Reader.Valid, Reader.InSync, Pow2, NumBits, CoefTokens, Coefs, InRange, GoodEnv, Shared, Accepted, NextCoef, ValueBits, RunOf, SizeOf;
    ghost var sync := AtCoef(d, env, t, w, k, se, after);
    ghost var z := if sync then NextCoef(w, k, se) else 0;
    ghost var goal := if sync then Coefs(t, w, k, 0, se) + after else [];
    next, more := k, true;
    if sync { MeetFirst(t, w, k, se, after); }
    var s;
    ok, s := d.ReadSymbol(t, tbl, dt, env, goal);
    if !ok {
      return;
    }
    Halves(s);
    var r := RunOf(s);
    if SizeOf(s) != 0 {
      ok := DropValue(d, SizeOf(s), if sync && z <= se then w[z] else 0, env, if goal != [] then goal[1..] else []);
      next := k + r + 1;
    } else if r == 15 {
      next := k + 16;
    } else {
      more := false;
    }
  }

  // The end of a block after its AC coefficients.
  ghost function Tail(t: nat, w: seq<int>, se: nat, rest: seq<Token>): seq<Token>
    requires |w| == 64 && se < 64
  {
    (if se > 0 && w[se] == 0 then [Sym(t, 0)] else []) + rest
  }

  // The discarding loop of decode_mcu, from coefficient k on.
  method DiscardAc(d: Reader, t: nat, tbl: JHuffTbl, dt: DDerived, k0: nat, se: nat, ghost env: Env, ghost w: seq<int>, ghost rest: seq<Token>)
    returns (ok: bool)
    requires d.Valid() && GoodEnv(env) && t < |env| && (k0 <= se ==> Shared(env[t], tbl, dt)) && 1 <= k0 && se < 64
    modifies d`pos, d`unreadMarker, d`getBuffer, d`bitsLeft, d`held, d`insufficientData
    ensures d.Unmarked(ok) && (ok ==> d.Valid())
    ensures |w| == 64 && k0 <= se + 1 && old(AtCoef(d, env, t, w, k0, se, Tail(t, w, se, rest))) && (k0 == se + 1 ==> se == 0 || w[se] != 0) ==>
      (d.avail == |d.input| ==> ok) && (ok ==> d.InSync(env, rest))
  {
    hide Reader.Valid, Reader.InSync, GoodEnv, Shared, Accepted, AtCoef, Coefs, InRange;
    ghost var sync := |w| == 64 && k0 <= se + 1 && AtCoef(d, env, t, w, k0, se, Tail(t, w, se, rest)) && (k0 == se + 1 ==> se == 0 || w[se] != 0);
    ghost var after := if sync then Tail(t, w, se, rest) else [];
    var k := k0;
    while k <= se
      invariant d.Valid() && d.Unmarked(true) && 1 <= k && (sync ==> k <= se + 1 && AtCoef(d, env, t, w, k, se, after))
      invariant sync && k == se + 1 ==> se == 0 || w[se] != 0
    {
      var more, next;
      if sync { LastOne(t, w, k, se, rest); }
      ok, more, next := DiscardStep(d, t, tbl, dt, k, se, env, w, after);
      if !ok || !more {
        return;
      }
      k := next;
    }
    if sync { AfterCoefs(d, env, t, w, k, se, after); assert [] + rest == rest; }
    ok := true;
  }

  // A band that is all zeros from k on ends in an end-of-block.
  lemma LastOne(t: nat, w: seq<int>, k: nat, se: nat, rest: seq<Token>)
    requires |w| == 64 && 1 <= k <= se < 64
    ensures NextCoef(w, k, se) > se ==> Tail(t, w, se, rest) != [] && Tail(t, w, se, rest)[0] == Sym(t, 0) && Tail(t, w, se, rest)[1..] == rest
  {
  }

  // The AC loops of decode_mcu for a component of which limit coefficients are wanted: those are placed, and what was read with
  // the last of them; all others are dropped.
  method DecodeAcLimited(d: Reader, t: nat, tbl: JHuffTbl, dt: DDerived, area: array<int>, at: nat, order: seq<nat>, limit: nat, se: nat,
                         ghost env: Env, ghost w: seq<int>, ghost rest: seq<Token>)
    returns (ok: bool, ghost reach: nat)
    requires d.Valid() && GoodEnv(env) && t < |env| && (se > 0 ==> Shared(env[t], tbl, dt))
    requires IsOrder(order) && 1 <= limit <= se + 1 && se < 64 && at + 64 <= area.Length
    modifies d`pos, d`unreadMarker, d`getBuffer, d`bitsLeft, d`held, d`insufficientData, area
    ensures d.Unmarked(ok) && (ok ==> d.Valid())
    ensures |w| == 64 && InRange(w, 1, se) && old(d.InSync(env, AcTokens(t, w, se) + rest)) ==>
      (d.avail == |d.input| ==> ok)
      && (ok ==> d.InSync(env, rest) && limit <= reach <= se + 1 && area[..] == Placed(old(area[..]), at, order, w, 0, 1, reach))
  {
    hide Reader.Valid, Reader.InSync, GoodEnv, Placed, Shared, Accepted, IsOrder, AtCoef, Coefs, InRange, StepFrom, Wrote, Tells;
    ghost var sync := |w| == 64 && InRange(w, 1, se) && d.InSync(env, AcTokens(t, w, se) + rest);
    ghost var after := if |w| == 64 then Tail(t, w, se, rest) else [];
    ghost var area0 := area[..];
    reach := limit;
    var k := 1;
    if sync {
      SeqStart(d, env, t, w, se, after, rest);
      PlacedNothing(area0, at, order, w, 0, 1, 1);
    }
    while k < limit
      invariant d.Valid() && d.Unmarked(true) && 1 <= k && (sync ==> k <= se + 1)
      invariant sync ==> AtCoef(d, env, t, w, k, se, after) && area[..] == Placed(area0, at, order, w, 0, 1, k)
      invariant sync && k == se + 1 ==> se == 0 || w[se] != 0
    {
      var more, next, r;
      ghost var ws;
      if sync { LastOne(t, w, k, se, rest); }
      ok, more, next, r, ws := BandStep(d, t, tbl, dt, area, at, order, k, se, 0, env, w, after);
      if !ok {
        return;
      }
      if !more {
        if sync { PlacedZeros(area0, at, order, w, 0, 1, k, se + 1); }
        reach := se + 1;
        return;
      }
      if sync { PlacedAgain(area0, at, order, w, 0, 1, k, next); }
      k := next;
    }
    reach := k;
    ok := DiscardAc(d, t, tbl, dt, k, se, env, w, rest);
  }

  // The DC difference of a component that is not wanted at all: the predictor stays as it is.
  method DiscardDc(d: Reader, t: nat, tbl: JHuffTbl, dt: DDerived, ghost diff: int, ghost env: Env, ghost rest: seq<Token>)
    returns (ok: bool)
    requires d.Valid() && GoodEnv(env) && t < |env| && Shared(env[t], tbl, dt) && AcceptedDc(tbl, dt)
    modifies d`pos, d`unreadMarker, d`getBuffer, d`bitsLeft, d`held, d`insufficientData
    ensures d.Unmarked(ok) && (ok ==> d.Valid())
    ensures DiffInRange(diff) && old(d.InSync(env, DcTokens(t, diff) + rest)) ==> (d.avail == |d.input| ==> ok) && (ok ==> d.InSync(env, rest))
  {
    hide Reader.Valid, Reader.InSync, NumBits, ValueBits, GoodEnv, Shared, Accepted, AcceptedDc, SymbolsFit, Known, Total, DiffInRange, DcTokens;
    ghost var goal := if DiffInRange(diff) then DcTokens(t, diff) + rest else [];
    if DiffInRange(diff) { DcAhead(t, diff, rest); }
    var s;
    ok, s := d.ReadSymbol(t, tbl, dt, env, goal);
    if !ok {
      return;
    }
    InTable(tbl, dt, s);
    if s != 0 {
      ok := DropValue(d, s, diff, env, if goal != [] then goal[1..] else []);
    }
  }

  // What is wanted of a block is in its place: nothing, or the DC value and the AC coefficients below the limit, and up to reach.
  ghost predicate Wanted(area0: seq<int>, area: seq<int>, last0: seq<int>, last: seq<int>, ci: nat,
                         at: nat, order: seq<nat>, block: seq<int>, limit: nat, reach: nat, se: nat)
    requires ci < |last0| && at + 64 <= |area0| && IsOrder(order) && |block| == 64 && se < 64
  {
    if limit == 0 then area == area0 && last == last0
    else last == last0[ci := block[0]] && limit <= reach <= se + 1
         && area == Placed(area0[at := ToShort(block[0])], at, order, Zigzag(block, order, 0), 0, 1, reach)
  }

  // A block of decode_mcu with its coef_limit. Whatever is wanted of it, the decoder is then at the next block.
  method DecodeLimited(d: Reader, dec: Decoding, t: Tables, sc: Scan, ci: nat, limit: nat, area: array<int>, at: nat,
                       ghost env: Env, ghost block: seq<int>, ghost rest: seq<Token>)
    returns (ok: bool, ghost reach: nat)
    requires d.Valid() && GoodEnv(env) && GoodHuff(t, sc) && HasTables(sc, env, dec) && sc.mode == Sequential && limit <= sc.se + 1
    requires ci < |sc.comps| == |d.lastDcVal| && at + 64 <= area.Length && |block| == 64
    modifies d`pos, d`unreadMarker, d`getBuffer, d`bitsLeft, d`held, d`insufficientData, d`lastDcVal, area
    ensures d.Unmarked(ok) && |d.lastDcVal| == |sc.comps| && (ok ==> d.Valid())
    ensures BlockFits(t, sc, old(d.lastDcVal), ci, block) && old(d.InSync(env, DcBlock(t, sc, d.lastDcVal, ci, block) + rest)) ==>
      (d.avail == |d.input| ==> ok)
      && (ok ==> d.InSync(env, rest) && Wanted(old(area[..]), area[..], old(d.lastDcVal), d.lastDcVal, ci, at, t.order, block, limit, reach, sc.se))
  {
    hide Reader.Valid, Reader.InSync, GoodEnv, Shared, Accepted, AcceptedDc, HasTables, SetUp, SymbolsFit, IsOrder, DcTokens, AcTokens, DiffInRange;
    hide InRange, Zigzag, Shift, ToShort, Placed, AtCoef, DiffFrom, Tells;
    var comp := sc.comps[ci];
    TablesHere(t, sc, env, dec, ci);
    var td, ta := DcTable(comp.dcTbl), AcTable(comp.acTbl);
    ghost var last := d.lastDcVal;
    ghost var sync := BlockFits(t, sc, last, ci, block) && d.InSync(env, DcBlock(t, sc, last, ci, block) + rest);
    ghost var w := Zigzag(block, t.order, 0);
    ghost var ac := if sync then AcTokens(ta, w, sc.se) else [];
    reach := limit;
    if sync {
      ShiftNone(block[0]);
      Ungrouped(DcTokens(td, Diff(sc, last, ci, block)), ac, rest);
    }
    if limit == 0 {
      ok := DiscardDc(d, td, dec.tbls[td], dec.derived[td], if sync then Diff(sc, last, ci, block) else 0, env, ac + rest);
      if !ok {
        return;
      }
      if sync { SeqStart(d, env, ta, w, sc.se, Tail(ta, w, sc.se, rest), rest); }
      ok := DiscardAc(d, ta, dec.tbls[ta], dec.derived[ta], 1, sc.se, env, w, rest);
    } else {
      ok := DecodeDc(d, td, dec.tbls[td], dec.derived[td], ci, if sync then Diff(sc, last, ci, block) else 0, env, ac + rest);
      if !ok {
        return;
      }
      area[at] := ToShort(d.lastDcVal[ci]);
      ok, reach := DecodeAcLimited(d, ta, dec.tbls[ta], dec.derived[ta], area, at, t.order, limit, sc.se, env, w, rest);
    }
  }
}
