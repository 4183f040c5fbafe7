// DC coefficients, and whole blocks of a sequential scan (sections F.1.2 and G.1.2.1 of ITU-T T.81).
module HuffDc {
  import opened Numbers
  import opened ArithModel
  import opened HuffTable
  import opened HuffTokens
  import opened HuffWriter
  import opened HuffLookup
  import opened HuffCursor
  import opened HuffWrites
  import opened HuffReader
  import opened HuffEobRun
  import opened HuffValues
  import opened HuffAcFirst

  // A difference may have one bit more than a value.
  const MAX_DIFF_BITS := MAX_COEF_BITS + 1

  predicate DiffInRange(diff: int) { NumBits(Abs(diff)) <= MAX_DIFF_BITS }

  function DcTokens(t: nat, diff: int): seq<Token>
    requires DiffInRange(diff)
  {
    var n := NumBits(Abs(diff));
    [Sym(t, n)] + if n > 0 then [Raw(ValueBits(diff, n), n)] else []
  }

  lemma DcCodable(env: Env, t: nat, diff: int)
    requires GoodEnv(env) && t < |env| && DiffInRange(diff)
    ensures Codable(env, DcTokens(t, diff)) <==> HasCode(env, Sym(t, NumBits(Abs(diff))))
  {
    hide NumBits, ValueBits, GoodEnv;
    assert DcTokens(t, diff)[0] == Sym(t, NumBits(Abs(diff)));
  }

  // A DC difference; the predictor is updated.
  method EncodeDc(w: Writer, t: nat, ci: nat, value: int) returns (ok: bool)
    requires w.Valid() && t < 2 * NUM_HUFF_TBLS && ci < |w.lastDcVal|
    modifies w`putBuffer, w`putBits, w`out, w`code, w`pending, w`log, w`counts, w`lastDcVal
    ensures GoodEnv(w.env)
    ensures var diff := value - old(w.lastDcVal[ci]);
      && (ok <==> DiffInRange(diff) && (w.gather || Codable(w.env, DcTokens(t, diff))))
      && (ok ==> w.Valid() && w.log == old(w.log) + DcTokens(t, diff) && w.lastDcVal == old(w.lastDcVal)[ci := value])
  {
    hide Writer.Valid, NumBits, ValueBits, Pow2, Codable;
    EnvOf(w);
    var diff := value - w.lastDcVal[ci];
    w.lastDcVal := w.lastDcVal[ci := value];
    var nbits := CountBits(Abs(diff));
    if nbits > MAX_DIFF_BITS {
      return false;
    }
    DcCodable(w.env, t, diff);
    if nbits > 0 {
      ok := EmitValue(w, t, nbits, diff, nbits);
    } else {
      ok := w.EmitSymbol(t, 0);
    }
  }

  lemma DcAhead(t: nat, diff: int, rest: seq<Token>)
    requires DiffInRange(diff)
    ensures var goal := DcTokens(t, diff) + rest; var n := NumBits(Abs(diff));
      && (n == 0 <==> diff == 0) && goal != [] && goal[0] == Sym(t, n)
      && if diff == 0 then goal[1..] == rest
         else goal[1..] != [] && goal[1..][0] == Raw(ValueBits(diff, n), n) && goal[1..][1..] == rest
  {
    if diff != 0 { NonZeroBits(diff); }
    hide NumBits, ValueBits;
    var n := NumBits(Abs(diff));
    if n > 0 { Ungrouped([Sym(t, n)], [Raw(ValueBits(diff, n), n)], rest); }
  }

  // A difference may have as many bits as a symbol of a DC table can say.
  ghost function AcceptedDc(tbl: JHuffTbl, dt: DDerived): (yes: bool)
    ensures yes ==> Accepted(tbl, dt)
  {
    Accepted(tbl, dt) && SymbolsFit(tbl, 15, Total(tbl.bits, 16))
  }

  function DiffFrom(input: seq<Byte>, tbl: JHuffTbl, dt: DDerived, c: Cursor): Maybe<(Cursor, int)> {
    match Symbol(input, tbl, dt, c)
    case Nothing => Nothing
    case Just((next, s)) => if 1 <= s <= 15 then ValueFrom(input, next, s) else Just((next, 0))
  }

  method DecodeDc(d: Reader, t: nat, tbl: JHuffTbl, dt: DDerived, ci: nat, ghost diff: int, ghost env: Env, ghost rest: seq<Token>)
    returns (ok: bool)
    requires d.Valid() && GoodEnv(env) && t < |env| && AcceptedDc(tbl, dt)
    requires ci < |d.lastDcVal|
    modifies d`pos, d`unreadMarker, d`getBuffer, d`bitsLeft, d`held, d`insufficientData, d`lastDcVal
    ensures d.Unmarked(ok) && |d.lastDcVal| == |old(d.lastDcVal)| && (if ok then d.Valid() else d.lastDcVal == old(d.lastDcVal))
    ensures Tells(ok, d.avail == |d.input|, DiffFrom(d.input, tbl, dt, old(d.Cur())), (d.Cur(), d.lastDcVal[ci] - old(d.lastDcVal[ci])))
    ensures d.lastDcVal == old(d.lastDcVal)[ci := d.lastDcVal[ci]]
    ensures Shared(env[t], tbl, dt) && DiffInRange(diff) && old(d.InSync(env, DcTokens(t, diff) + rest)) ==>
      (d.avail == |d.input| ==> ok)
      && (ok ==> d.InSync(env, rest) && d.lastDcVal == old(d.lastDcVal)[ci := old(d.lastDcVal[ci]) + diff])
  {
    hide Symbol, ValueFrom, AcceptedDc;
    hide Reader.Valid, Reader.InSync, NumBits, ValueBits, GoodEnv, Shared, Accepted, SymbolsFit, Known, Total, DiffInRange, DcTokens;
    ghost var goal := if DiffInRange(diff) then DcTokens(t, diff) + rest else [];
    if DiffInRange(diff) { DcAhead(t, diff, rest); }
    var s;
    var value := 0;
    ok, s := d.ReadSymbol(t, tbl, dt, env, goal);
    if !ok {
      return;
    }
    InTable(tbl, dt, s);
    if s != 0 {
      ok, value := ReadValue(d, s, diff, env, if goal != [] then goal[1..] else []);
      if !ok {
        return;
      }
    }
    d.lastDcVal := d.lastDcVal[ci := value + d.lastDcVal[ci]];
  }

  lemma InTable(tbl: JHuffTbl, dt: DDerived, s: Byte)
    requires AcceptedDc(tbl, dt) && Known(tbl, s)
    ensures s <= 15
  {
  }

  // ----- the AC part of a sequential block; w is in zigzag order -----

  function AcTokens(t: nat, w: seq<int>, se: nat): seq<Token>
    requires |w| == 64 && se < 64 && InRange(w, 1, se)
  {
    Coefs(t, w, 1, 0, se) + if se > 0 && w[se] == 0 then [Sym(t, 0)] else []
  }

  lemma PointAcZero(block: seq<int>, order: seq<nat>, k: nat)
    requires IsOrder(order) && |block| == 64 && k < 64
    ensures Zigzag(block, order, 0)[k] == block[order[k]]
  {
    assert Pow2(0) == 1;
  }

  // A coefficient is among the tokens of the block.
  lemma CoefInside(env: Env, t: nat, w: seq<int>, se: nat, done: seq<Token>, x: seq<Token>, rest: seq<Token>)
    requires GoodEnv(env) && |w| == 64 && se < 64 && InRange(w, 1, se) && Coefs(t, w, 1, 0, se) == done + x + rest
    ensures Codable(env, AcTokens(t, w, se)) ==> Codable(env, x)
  {
    hide Codable, GoodEnv, Coefs, InRange;
    var end := if se > 0 && w[se] == 0 then [Sym(t, 0)] else [];
    CodableConcat(env, done + x + rest, end);
    CodableConcat(env, done + x, rest);
    CodableConcat(env, done, x);
  }

  lemma CoefsDone(t: nat, w: seq<int>, k: nat, r: nat, se: nat, done: seq<Token>)
    requires |w| == 64 && se < 64 && k > se && InRange(w, k, se)
    ensures done + Coefs(t, w, k, r, se) == done
  {
  }

  // The AC part of encode_one_block
  method EncodeAcPart(w: Writer, t: nat, block: seq<int>, order: seq<nat>, se: nat) returns (ok: bool)
    requires w.Valid() && t < 2 * NUM_HUFF_TBLS && IsOrder(order) && |block| == 64 && se < 64
    modifies w`putBuffer, w`putBits, w`out, w`code, w`pending, w`log, w`counts
    ensures GoodEnv(w.env)
    ensures var c := Zigzag(block, order, 0);
      && (ok <==> InRange(c, 1, se) && (w.gather || Codable(w.env, AcTokens(t, c, se))))
      && (ok ==> w.Valid() && w.log == old(w.log) + AcTokens(t, c, se))
  {
    hide Writer.Valid, Pow2, NumBits, CoefTokens, Coefs, InRange, Codable, GoodEnv, PointAc, AcTokens;
    EnvOf(w);
    ghost var c, log0, done := Zigzag(block, order, 0), w.log, [];
    var r := 0;
    var k := 1;
    while k <= se
      invariant 1 <= k && k <= se + 1 && w.Valid() && (r > 0 <==> k > 1 && c[k - 1] == 0)
      invariant w.log == log0 + done
      invariant InRange(c, 1, se) <==> InRange(c, k, se)
      invariant InRange(c, 1, se) ==> Coefs(t, c, 1, 0, se) == done + Coefs(t, c, k, r, se)
    {
      RangeStep(c, k, se);
      PointAcZero(block, order, k);
      ghost var good := InRange(c, k, se);
      if good { CoefsNext(t, c, k, r, se, done); }
      var v := block[order[k]];
      if v == 0 {
        ZeroSmall();
        r := r + 1;
      } else {
        ghost var x := if NumBits(Abs(v)) <= 15 then CoefTokens(t, r, v) else [];
        if good { CoefInside(w.env, t, c, se, done, x, Coefs(t, c, k + 1, 0, se)); }
        ok := EmitCoef(w, t, r, v);
        if !ok {
          return;
        }
        done := done + x;
        r := 0;
      }
      k := k + 1;
    }
    EmptyRange(c, k, se);
    CoefsDone(t, c, k, r, se, done);
    LogCodable(w, log0, done);
    EndCodable(w.env, t, c, se);
    ok := true;
    if r > 0 {
      ok := w.EmitSymbol(t, 0);
    }
  }

  lemma EmptyRange(w: seq<int>, k: nat, se: nat)
    requires |w| == 64 && se < 64 && k > se
    ensures InRange(w, k, se)
  {
  }

  lemma EndCodable(env: Env, t: nat, w: seq<int>, se: nat)
    requires GoodEnv(env) && |w| == 64 && se < 64 && InRange(w, 1, se)
    ensures AcTokens(t, w, se) == if se > 0 && w[se] == 0 then Coefs(t, w, 1, 0, se) + [Sym(t, 0)] else Coefs(t, w, 1, 0, se)
    ensures Codable(env, AcTokens(t, w, se))
      <==> Codable(env, Coefs(t, w, 1, 0, se)) && (se > 0 && w[se] == 0 ==> HasCode(env, Sym(t, 0)))
  {
    hide HasCode, GoodEnv, Coefs, InRange;
    var end := if se > 0 && w[se] == 0 then [Sym(t, 0)] else [];
    CodableConcat(env, Coefs(t, w, 1, 0, se), end);
    if end != [] { assert end[0] == Sym(t, 0); }
  }

  // The statistics pass over one coefficient.
  method CountCoef(w: Writer, t: nat, run: nat, v: int) returns (ok: bool)
    requires w.Valid() && w.gather && t < 2 * NUM_HUFF_TBLS && v != 0
    modifies w`log, w`counts
    ensures ok <==> NumBits(Abs(v)) <= MAX_COEF_BITS
    ensures ok ==> w.Valid() && w.log == old(w.log) + CoefTokens(t, run, v)
  {
    hide Writer.Valid, NumBits, ValueBits;
    ghost var log0 := w.log;
    var r: nat := run;
    ghost var n := 0;
    while r > 15
      invariant w.Valid() && run == r + 16 * n && w.log == log0 + Zrls(t, n)
      decreases r
    {
      w.CountSymbol(t, 0xF0);
      r := r - 16;
      n := n + 1;
    }
    NonZeroBits(v);
    var nbits := CountBits(Abs(v));
    if nbits > MAX_COEF_BITS {
      return false;
    }
    w.CountSymbol(t, 16 * r + nbits);
    w.PassOver(ValueBits(v, nbits), nbits);
    assert w.log == log0 + (Zrls(t, run / 16) + [Sym(t, 16 * r + nbits), Raw(ValueBits(v, nbits), nbits)]);
    return true;
  }

  // The AC part of htest_one_block
  method CountAcPart(w: Writer, t: nat, block: seq<int>, order: seq<nat>, se: nat) returns (ok: bool)
    requires w.Valid() && w.gather && t < 2 * NUM_HUFF_TBLS && IsOrder(order) && |block| == 64 && se < 64
    modifies w`log, w`counts
    ensures var c := Zigzag(block, order, 0);
      && (ok <==> InRange(c, 1, se)) && (ok ==> w.Valid() && w.log == old(w.log) + AcTokens(t, c, se))
  {
    hide Writer.Valid, Pow2, NumBits, CoefTokens, Coefs, InRange, PointAc;
    ghost var c, log0, done := Zigzag(block, order, 0), w.log, [];
    var r := 0;
    var k := 1;
    while k <= se
      invariant 1 <= k && k <= se + 1 && w.Valid() && (r > 0 <==> k > 1 && c[k - 1] == 0) && w.log == log0 + done
      invariant InRange(c, 1, se) <==> InRange(c, k, se)
      invariant InRange(c, 1, se) ==> Coefs(t, c, 1, 0, se) == done + Coefs(t, c, k, r, se)
    {
      RangeStep(c, k, se);
      PointAcZero(block, order, k);
      if InRange(c, k, se) { CoefsNext(t, c, k, r, se, done); }
      var v := block[order[k]];
      if v == 0 {
        ZeroSmall();
        r := r + 1;
      } else {
        ok := CountCoef(w, t, r, v);
        if !ok {
          return;
        }
        done := done + CoefTokens(t, r, v);
        r := 0;
      }
      k := k + 1;
    }
    EmptyRange(c, k, se);
    CoefsDone(t, c, k, r, se, done);
    if r > 0 {
      w.CountSymbol(t, 0);
    }
    return true;
  }

  // A DC difference in htest_one_block and encode_mcu_gather
  method CountDc(w: Writer, t: nat, ci: nat, value: int) returns (ok: bool)
    requires w.Valid() && w.gather && t < 2 * NUM_HUFF_TBLS && ci < |w.lastDcVal|
    modifies w`log, w`counts, w`lastDcVal
    ensures var diff := value - old(w.lastDcVal[ci]);
      && (ok <==> DiffInRange(diff))
      && (ok ==> w.Valid() && w.log == old(w.log) + DcTokens(t, diff) && w.lastDcVal == old(w.lastDcVal)[ci := value])
  {
    hide Writer.Valid, NumBits, ValueBits;
    var diff := value - w.lastDcVal[ci];
    var nbits := CountBits(Abs(diff));
    if nbits > MAX_DIFF_BITS {
      return false;
    }
    w.CountSymbol(t, nbits);
    if nbits > 0 { w.PassOver(ValueBits(diff, nbits), nbits); }
    w.lastDcVal := w.lastDcVal[ci := value];
    return true;
  }

  // ----- the decoder -----

  // The AC loop from coefficient k on.
  function AcPartFrom(input: seq<Byte>, tbl: JHuffTbl, dt: DDerived, c: Cursor, at: nat, order: seq<nat>, k: nat, se: nat,
                      ws: seq<Write>): (f: Outcome<Cursor>)
    requires IsOrder(order)
    ensures ws <= f.ws
    decreases se + 1 - k
  {
    if k > se then Done(c, ws)
    else
      match StepFrom(input, tbl, dt, c, at, order, k, 0)
      case Nothing => Stuck(ws)
      case Just((next, step)) =>
        if step.more then AcPartFrom(input, tbl, dt, next, at, order, step.next, se, ws + step.ws) else Done(next, ws + step.ws)
  }

  lemma AcPartNext(input: seq<Byte>, tbl: JHuffTbl, dt: DDerived, c: Cursor, at: nat, order: seq<nat>, k: nat, se: nat, ws: seq<Write>)
    requires IsOrder(order)
    ensures k > se ==> AcPartFrom(input, tbl, dt, c, at, order, k, se, ws) == Done(c, ws)
    ensures k <= se ==> (AcPartFrom(input, tbl, dt, c, at, order, k, se, ws) ==
      match StepFrom(input, tbl, dt, c, at, order, k, 0)
      case Nothing => Stuck(ws)
      case Just((next, step)) =>
        if step.more then AcPartFrom(input, tbl, dt, next, at, order, step.next, se, ws + step.ws) else Done(next, ws + step.ws))
  {
  }

  // The AC loop of decode_mcu
  method DecodeAcPart(d: Reader, t: nat, tbl: JHuffTbl, dt: DDerived, area: array<int>, at: nat, order: seq<nat>, se: nat,
                      ghost env: Env, ghost w: seq<int>, ghost rest: seq<Token>)
    returns (ok: bool, ghost ws: seq<Write>)
    requires d.Valid() && GoodEnv(env) && t < |env| && (se > 0 ==> Accepted(tbl, dt))
    requires IsOrder(order) && se < 64 && at + 64 <= area.Length
    modifies d`pos, d`unreadMarker, d`getBuffer, d`bitsLeft, d`held, d`insufficientData, area
    ensures d.Unmarked(ok) && (ok ==> d.Valid())
    ensures Wrote(Corrects(0), old(area[..]), area[..], ws)
    ensures Follows(ok, d.avail == |d.input|, AcPartFrom(d.input, tbl, dt, old(d.Cur()), at, order, 1, se, []), d.Cur(), ws)
    ensures (se > 0 ==> Shared(env[t], tbl, dt)) && |w| == 64 && InRange(w, 1, se) && old(d.InSync(env, AcTokens(t, w, se) + rest)) ==>
      (d.avail == |d.input| ==> ok)
      && if ok then d.InSync(env, rest) && area[..] == Placed(old(area[..]), at, order, w, 0, 1, se + 1)
         else Between(old(area[..]), area[..], Placed(old(area[..]), at, order, w, 0, 1, se + 1))
  {
    hide Reader.Valid, Reader.InSync, GoodEnv, Placed, Shared, Accepted, IsOrder, NumBits, Pow2, AtCoef, Coefs, InRange, Between;
    hide StepFrom, Wrote, AcPartFrom;
    ghost var after := (if se > 0 && |w| == 64 && w[se] == 0 then [Sym(t, 0)] else []) + rest;
    ghost var sync := (se > 0 ==> Shared(env[t], tbl, dt)) && |w| == 64 && InRange(w, 1, se) && d.InSync(env, AcTokens(t, w, se) + rest);
    ghost var area0 := area[..];
    ws := [];
    WroteNothing(Corrects(0), area0);
    ghost var whole := AcPartFrom(d.input, tbl, dt, d.Cur(), at, order, 1, se, []);
    var k := 1;
    if sync {
      SeqStart(d, env, t, w, se, after, rest);
      PlacedNothing(area0, at, order, w, 0, 1, 1);
      PlacedNothingYet(area0, at, order, w, se);
    }
    while k <= se
      invariant AcPartFrom(d.input, tbl, dt, d.Cur(), at, order, k, se, ws) == whole && Wrote(Corrects(0), area0, area[..], ws)
      invariant d.Valid() && d.Unmarked(true) && 1 <= k && (sync ==> k <= se + 1)
      invariant sync ==> AtCoef(d, env, t, w, k, se, after) && area[..] == Placed(area0, at, order, w, 0, 1, k)
      invariant sync && k == se + 1 ==> se == 0 || w[se] != 0
    {
      var more, next, r;
      ghost var step, mid := [], area[..];
      AcPartNext(d.input, tbl, dt, d.Cur(), at, order, k, se, ws);
      ok, more, next, r, step := BandStep(d, t, tbl, dt, area, at, order, k, se, 0, env, w, after);
      if sync { PlacedBetween(area0, at, order, w, 0, 1, k, se + 1); }
      if !ok {
        return;
      }
      WroteMore(Corrects(0), area0, mid, area[..], ws, step);
      ws := ws + step;
      if !more {
        if sync { PlacedZeros(area0, at, order, w, 0, 1, k, se + 1); }
        return;
      }
      if sync { PlacedAgain(area0, at, order, w, 0, 1, k, next); }
      k := next;
    }
    AcPartNext(d.input, tbl, dt, d.Cur(), at, order, k, se, ws);
    if sync { AfterCoefs(d, env, t, w, k, se, after); assert [] + rest == rest; }
    ok := true;
  }

  lemma PlacedNothingYet(area: seq<int>, at: nat, order: seq<nat>, w: seq<int>, se: nat)
    requires IsOrder(order) && |w| == 64 && se < 64 && at + 64 <= |area|
    ensures se == 0 ==> Placed(area, at, order, w, 0, 1, se + 1) == area
  {
  }

  lemma SeqStart(d: Reader, env: Env, t: nat, w: seq<int>, se: nat, after: seq<Token>, rest: seq<Token>)
    requires GoodEnv(env) && d.Valid() && |w| == 64 && se < 64 && InRange(w, 1, se)
    requires after == (if se > 0 && w[se] == 0 then [Sym(t, 0)] else []) + rest && d.InSync(env, AcTokens(t, w, se) + rest)
    ensures AtCoef(d, env, t, w, 1, se, after)
    ensures se > 0 && w[se] == 0 ==> after != [] && after[0] == Sym(t, 0) && after[1..] == rest
  {
    hide Reader.InSync, Coefs;
    Ungrouped(Coefs(t, w, 1, 0, se), if se > 0 && w[se] == 0 then [Sym(t, 0)] else [], rest);
  }
}
