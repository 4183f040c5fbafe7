// AC coefficients of a first scan, and the AC part of a sequential block.
module HuffAcFirst {
  import opened Numbers
  import opened BitStrings
  import opened ArithModel
  import opened HuffTable
  import opened HuffTokens
  import opened HuffWriter
  import opened HuffLookup
  import opened HuffCursor
  import opened HuffWrites
  import opened HuffReader
  import opened HuffEobRun
  import opened HuffValues

  // Every coefficient of the band is small enough to be coded.
  predicate InRange(w: seq<int>, k: nat, se: nat)
    requires |w| == 64 && se < 64
  {
    forall i :: k <= i <= se ==> NumBits(Abs(w[i])) <= MAX_COEF_BITS
  }

  // The tokens from coefficient k on, r zeros having gone before; w is in zigzag order, point transform done.
  function Coefs(t: nat, w: seq<int>, k: nat, r: nat, se: nat): seq<Token>
    requires |w| == 64 && se < 64 && InRange(w, k, se)
    decreases 64 - k
  {
    if k > se then []
    else if w[k] == 0 then Coefs(t, w, k + 1, r + 1, se)
    else CoefTokens(t, r, w[k]) + Coefs(t, w, k + 1, 0, se)
  }

  function FirstBlock(t: nat, w: seq<int>, ss: nat, se: nat): AcBlock
    requires |w| == 64 && ss <= se < 64 && InRange(w, ss, se)
  {
    AcBlock(Coefs(t, w, ss, 0, se), w[se] == 0, [])
  }

  lemma {:induction false} CoefsEnd(t: nat, w: seq<int>, k: nat, r: nat, se: nat)
    requires |w| == 64 && se < 64 && InRange(w, k, se) && k <= se && Coefs(t, w, k, r, se) == []
    ensures forall i :: k <= i <= se ==> w[i] == 0
    decreases 64 - k
  {
    if w[k] == 0 && k < se { CoefsEnd(t, w, k + 1, r + 1, se); }
  }

  lemma FirstBlockOk(t: nat, w: seq<int>, ss: nat, se: nat)
    requires |w| == 64 && ss <= se < 64 && InRange(w, ss, se)
    ensures FirstBlock(t, w, ss, se).Ok()
  {
    if Coefs(t, w, ss, 0, se) == [] { CoefsEnd(t, w, ss, 0, se); }
  }

  // Sixteen zeros more make a ZRL, if anything follows.
  lemma {:induction false} ZrlFirst(t: nat, w: seq<int>, k: nat, r: nat, se: nat)
    requires |w| == 64 && se < 64 && InRange(w, k, se) && Coefs(t, w, k, r, se) != []
    ensures Coefs(t, w, k, r + 16, se) == [Sym(t, 0xF0)] + Coefs(t, w, k, r, se)
    decreases 64 - k
  {
    hide NumBits, ValueBits, InRange;
    if w[k] == 0 {
      StillInRange(w, k, se);
      ZrlFirst(t, w, k + 1, r + 1, se);
    } else {
      assert Zrls(t, (r + 16) / 16) == [Sym(t, 0xF0)] + Zrls(t, r / 16);
    }
  }

  lemma StillInRange(w: seq<int>, k: nat, se: nat)
    requires |w| == 64 && se < 64 && InRange(w, k, se)
    ensures InRange(w, k + 1, se)
  {
  }

  lemma RangeStep(w: seq<int>, k: nat, se: nat)
    requires |w| == 64 && k <= se < 64
    ensures InRange(w, k, se) <==> NumBits(Abs(w[k])) <= MAX_COEF_BITS && InRange(w, k + 1, se)
  {
    hide NumBits;
  }

  lemma ZeroSmall()
    ensures NumBits(0) <= MAX_COEF_BITS
  {
  }

  // One coefficient off the list.
  lemma CoefsNext(t: nat, w: seq<int>, k: nat, r: nat, se: nat, done: seq<Token>)
    requires |w| == 64 && k <= se < 64 && InRange(w, k, se) && InRange(w, k + 1, se)
    ensures done + Coefs(t, w, k, r, se)
      == if w[k] == 0 then done + Coefs(t, w, k + 1, r + 1, se)
         else done + CoefTokens(t, r, w[k]) + Coefs(t, w, k + 1, 0, se)
  {
    hide NumBits, InRange, CoefTokens;
  }

  // ----- the coder -----

  // The tokens of a block before its end of band, the saved run first.
  function HeadTokens(t: nat, e: nat, head: seq<Token>): seq<Token>
    requires e <= MAX_EOBRUN
  {
    if head == [] then [] else Eob(t, e, []) + head
  }

  // A coefficient, after the run still pending.
  method EmitAfterRun(w: Writer, t: nat, r: nat, v: int, ghost done: seq<Token>) returns (ok: bool)
    requires w.Valid() && Saved(w, []) && t < 2 * NUM_HUFF_TBLS && v != 0
    modifies w`putBuffer, w`putBits, w`out, w`code, w`pending, w`log, w`counts, w`eobrun, w`be
    ensures GoodEnv(w.env)
    ensures ok <==> NumBits(Abs(v)) <= MAX_COEF_BITS && (w.gather || Codable(w.env, Eob(t, old(w.eobrun), []) + CoefTokens(t, r, v)))
    ensures ok ==> w.Valid() && Saved(w, []) && w.eobrun == 0
    ensures ok ==> w.log == old(w.log) + Eob(t, old(w.eobrun), []) + CoefTokens(t, r, v)
  {
    hide Writer.Valid, Pow2, NumBits, CoefTokens, Codable;
    EnvOf(w);
    ghost var e := w.eobrun;
    if NumBits(Abs(v)) <= MAX_COEF_BITS { CodableConcat(w.env, Eob(t, e, []), CoefTokens(t, r, v)); }
    NoEob(t, []);
    NothingCodable(w.env);
    if w.eobrun > 0 {
      ok := EmitEobrun(w, t, []);
      if !ok {
        return;
      }
    }
    ok := EmitCoef(w, t, r, v);
  }

  lemma NothingCodable(env: Env)
    requires GoodEnv(env)
    ensures Codable(env, [])
  {
  }

  lemma LogCodable(w: Writer, log0: seq<Token>, ts: seq<Token>)
    requires w.Valid() && w.log == log0 + ts
    ensures GoodEnv(w.env) && (w.gather || Codable(w.env, ts))
  {
    hide HasCode;
    if !w.gather { CodableConcat(w.env, log0, ts); }
  }

  // The next coefficient is among the tokens of the block.
  lemma NextInside(env: Env, t: nat, e: nat, done: seq<Token>, x: seq<Token>, rest: seq<Token>)
    requires GoodEnv(env) && e <= MAX_EOBRUN && Codable(env, HeadTokens(t, e, done + x + rest)) && x != []
    ensures Codable(env, Eob(t, if done == [] then e else 0, []) + x)
  {
    hide Codable, Eob, GoodEnv;
    NoEob(t, []);
    CodableConcat(env, Eob(t, e, []), done + x + rest);
    CodableConcat(env, done + x, rest);
    CodableConcat(env, done, x);
    CodableConcat(env, Eob(t, if done == [] then e else 0, []), x);
    NothingCodable(env);
  }

  lemma HeadGrows(t: nat, e: nat, done: seq<Token>, x: seq<Token>)
    requires e <= MAX_EOBRUN && x != []
    ensures HeadTokens(t, e, done) + Eob(t, if done == [] then e else 0, []) + x == HeadTokens(t, e, done + x)
  {
    hide Eob;
    NoEob(t, []);
    assert [] + x == x && [] + Eob(t, e, []) == Eob(t, e, []);
    if done != [] {
      assert HeadTokens(t, e, done) + [] == HeadTokens(t, e, done);
      assert Eob(t, e, []) + done + x == Eob(t, e, []) + (done + x);
    }
  }

  lemma CoefNotEmpty(t: nat, r: nat, v: int)
    requires v != 0 && NumBits(Abs(v)) <= 15
    ensures CoefTokens(t, r, v) != []
  {
  }

  // The coefficient loop of encode_mcu_AC_first; r is the number of zeros at the end of the band.
  method EncodeHead(w: Writer, t: nat, block: seq<int>, order: seq<nat>, ss: nat, se: nat, al: nat) returns (ok: bool, r: nat)
    requires w.Valid() && Saved(w, []) && t < 2 * NUM_HUFF_TBLS
    requires IsOrder(order) && |block| == 64 && ss <= se < 64
    modifies w`putBuffer, w`putBits, w`out, w`code, w`pending, w`log, w`counts, w`eobrun, w`be
    ensures GoodEnv(w.env)
    ensures var c := Zigzag(block, order, al);
      ok <==> InRange(c, ss, se) && (w.gather || Codable(w.env, HeadTokens(t, old(w.eobrun), Coefs(t, c, ss, 0, se))))
    ensures ok ==>
      var c := Zigzag(block, order, al);
      && w.Valid() && Saved(w, []) && (r > 0 <==> c[se] == 0)
      && w.log == old(w.log) + HeadTokens(t, old(w.eobrun), Coefs(t, c, ss, 0, se))
      && w.eobrun == if Coefs(t, c, ss, 0, se) == [] then old(w.eobrun) else 0
  {
    hide Writer.Valid, Pow2, NumBits, CoefTokens, Coefs, InRange, Eob, Codable, GoodEnv, PointAc;
    EnvOf(w);
    ghost var c, e, log0, done := Zigzag(block, order, al), w.eobrun, w.log, [];
    r := 0;
    var k := ss;
    while k <= se
      invariant ss <= k <= se + 1 && w.Valid() && Saved(w, []) && (r > 0 <==> k > ss && c[k - 1] == 0)
      invariant w.log == log0 + HeadTokens(t, e, done) && w.eobrun == if done == [] then e else 0
      invariant InRange(c, ss, se) <==> InRange(c, k, se)
      invariant InRange(c, ss, se) ==> Coefs(t, c, ss, 0, se) == done + Coefs(t, c, k, r, se)
    {
      RangeStep(c, k, se);
      ghost var good := InRange(c, k, se);
      if good { CoefsNext(t, c, k, r, se, done); }
      var v := PointAc(block[order[k]], al);
      if v == 0 {
        ZeroSmall();
        r := r + 1;
      } else {
        ghost var x := if NumBits(Abs(v)) <= 15 then CoefTokens(t, r, v) else [];
        if NumBits(Abs(v)) <= 15 { CoefNotEmpty(t, r, v); HeadGrows(t, e, done, x); }
        if good && (w.gather || Codable(w.env, HeadTokens(t, e, Coefs(t, c, ss, 0, se)))) && !w.gather {
          NextInside(w.env, t, e, done, x, Coefs(t, c, k + 1, 0, se));
        }
        ok := EmitAfterRun(w, t, r, v, done);
        if !ok {
          return;
        }
        done := done + x;
        r := 0;
      }
      k := k + 1;
    }
    CoefsDone(t, c, k, r, se);
    assert done + [] == done;
    LogCodable(w, log0, HeadTokens(t, e, done));
    ok := true;
  }

  lemma CoefsDone(t: nat, w: seq<int>, k: nat, r: nat, se: nat)
    requires |w| == 64 && se < 64 && k > se
    ensures InRange(w, k, se) && Coefs(t, w, k, r, se) == []
  {
  }

  // encode_mcu_AC_first for one block; an EOB run of w.eobrun blocks is saved up before and after.
  method EncodeAcFirst(w: Writer, t: nat, block: seq<int>, order: seq<nat>, ss: nat, se: nat, al: nat) returns (ok: bool)
    requires w.Valid() && Saved(w, []) && w.eobrun < MAX_EOBRUN && t < 2 * NUM_HUFF_TBLS
    requires IsOrder(order) && |block| == 64 && ss <= se < 64
    modifies w`putBuffer, w`putBits, w`out, w`code, w`pending, w`log, w`counts, w`eobrun, w`be
    ensures GoodEnv(w.env)
    ensures var c := Zigzag(block, order, al);
      ok <==> InRange(c, ss, se) && (w.gather || Codable(w.env, BlockTokens(t, old(w.eobrun), [], FirstBlock(t, c, ss, se))))
    ensures ok ==>
      var b := FirstBlock(t, Zigzag(block, order, al), ss, se);
      && w.Valid() && Saved(w, []) && w.log == old(w.log) + BlockTokens(t, old(w.eobrun), [], b)
      && NextRun(t, old(w.eobrun), [], b) == (w.eobrun, [])
  {
    hide Writer.Valid, Pow2, NumBits, CoefTokens, Coefs, InRange, Eob, Codable, GoodEnv, Zigzag;
    ghost var c, e := Zigzag(block, order, al), w.eobrun;
    if InRange(c, ss, se) { FirstTokens(t, c, ss, se, e); }
    var r;
    ok, r := EncodeHead(w, t, block, order, ss, se, al);
    if InRange(c, ss, se) { WholeCodable(w.env, t, e, FirstBlock(t, c, ss, se)); }
    if !ok {
      return;
    }
    if r > 0 {
      w.eobrun := w.eobrun + 1;
      if w.eobrun == MAX_EOBRUN {
        ok := EmitEobrun(w, t, []);
      }
    }
  }

  // The tokens of a block with no correction bits.
  lemma FirstTokens(t: nat, w: seq<int>, ss: nat, se: nat, e: nat)
    requires |w| == 64 && ss <= se < 64 && InRange(w, ss, se) && e < MAX_EOBRUN
    ensures var b := FirstBlock(t, w, ss, se);
      var e1 := (if b.head == [] then e else 0) + if b.ends then 1 else 0;
      && (b.head == [] ==> b.ends)
      && BlockTokens(t, e, [], b) == HeadTokens(t, e, b.head) + (if e1 == MAX_EOBRUN then Eob(t, e1, []) else [])
      && NextRun(t, e, [], b) == (if e1 == MAX_EOBRUN then 0 else e1, [])
  {
    FirstBlockOk(t, w, ss, se);
    hide Coefs, InRange, Eob;
    var none: seq<Bit> := [];
    assert none + none == none;
  }

  lemma WholeCodable(env: Env, t: nat, e: nat, b: AcBlock)
    requires GoodEnv(env) && e < MAX_EOBRUN && b.tail == [] && b.Ok()
    ensures var e1 := (if b.head == [] then e else 0) + if b.ends then 1 else 0;
      Codable(env, BlockTokens(t, e, [], b)) <==>
        Codable(env, HeadTokens(t, e, b.head)) && (e1 == MAX_EOBRUN ==> Codable(env, Eob(t, e1, [])))
  {
    hide Codable, Eob, GoodEnv;
    var none: seq<Bit> := [];
    assert none + none == none;
    NothingCodable(env);
    var e1 := (if b.head == [] then e else 0) + if b.ends then 1 else 0;
    CodableConcat(env, HeadTokens(t, e, b.head), if e1 == MAX_EOBRUN then Eob(t, e1, []) else []);
  }

  // ----- the decoder -----

  // First nonzero coefficient at or after k.
  function NextCoef(w: seq<int>, k: nat, se: nat): (z: nat)
    requires |w| == 64 && se < 64 && k <= se + 1
    ensures k <= z <= se + 1 && (z <= se ==> w[z] != 0)
    ensures forall i :: k <= i < z ==> w[i] == 0
    decreases se + 1 - k
  {
    if k > se || w[k] != 0 then k else NextCoef(w, k + 1, se)
  }

  lemma {:induction false} CoefsSkip(t: nat, w: seq<int>, k: nat, r: nat, z: nat, se: nat)
    requires |w| == 64 && se < 64 && InRange(w, k, se) && k <= z <= se + 1
    requires forall i :: k <= i < z ==> w[i] == 0
    ensures InRange(w, z, se) && Coefs(t, w, k, r, se) == Coefs(t, w, z, r + z - k, se)
    decreases z - k
  {
    hide NumBits, CoefTokens;
    if k < z { CoefsSkip(t, w, k + 1, r + 1, z, se); }
  }

  // What the decoder meets at coefficient k: a ZRL, a coefficient after fewer than 16 zeros, or nothing more.
  lemma CoefsMeet(t: nat, w: seq<int>, k: nat, se: nat)
    requires |w| == 64 && k <= se < 64 && InRange(w, k, se)
    ensures var z := NextCoef(w, k, se);
      if z > se then Coefs(t, w, k, 0, se) == []
      else if z - k >= 16 then InRange(w, k + 16, se) && Coefs(t, w, k, 0, se) == [Sym(t, 0xF0)] + Coefs(t, w, k + 16, 0, se)
      else InRange(w, z, se) && InRange(w, z + 1, se) && Coefs(t, w, k, 0, se) == CoefTokens(t, z - k, w[z]) + Coefs(t, w, z + 1, 0, se)
  {
    hide NumBits, CoefTokens;
    var z := NextCoef(w, k, se);
    CoefsSkip(t, w, k, 0, z, se);
    if z <= se && z - k >= 16 {
      CoefsSkip(t, w, k, 0, k + 16, se);
      CoefsSkip(t, w, k + 16, 0, z, se);
      NotLast(t, w, z, z - k - 16, se);
      ZrlFirst(t, w, k + 16, 0, se);
    }
  }

  lemma NotLast(t: nat, w: seq<int>, z: nat, r: nat, se: nat)
    requires |w| == 64 && z <= se < 64 && InRange(w, z, se) && w[z] != 0
    ensures Coefs(t, w, z, r, se) != []
  {
    hide NumBits;
    assert CoefTokens(t, r, w[z]) != [];
  }

  // A coefficient after r < 16 zeros is one symbol and its value bits.
  lemma ShortRun(t: nat, r: nat, v: int)
    requires v != 0 && NumBits(Abs(v)) <= MAX_COEF_BITS && r < 16
    ensures 1 <= NumBits(Abs(v))
    ensures var n := NumBits(Abs(v)); CoefTokens(t, r, v) == [Sym(t, 16 * r + n), Raw(ValueBits(v, n), n)]
  {
    NonZeroBits(v);
    hide NumBits, ValueBits;
    var n := NumBits(Abs(v));
    assert Zrls(t, 0) == [] && [] + [Sym(t, 16 * r + n), Raw(ValueBits(v, n), n)] == [Sym(t, 16 * r + n), Raw(ValueBits(v, n), n)];
  }

  // jpeg_natural_order with its extra entries
  function NaturalAt(order: seq<nat>, k: nat): (i: nat)
    requires IsOrder(order)
    ensures i < 64
  {
    if k < 64 then order[k] else 63
  }

  // The tokens for the decoder at coefficient k of a band; after the band comes `after`.
  ghost predicate AtCoef(d: Reader, env: Env, t: nat, w: seq<int>, k: nat, se: nat, after: seq<Token>)
    requires GoodEnv(env) && d.Valid()
    reads d`pos, d`avail, d`unreadMarker, d`bitsLeft, d`getBuffer, d`held, d`pad, d`landing, d`insufficientData
  {
    |w| == 64 && se < 64 && InRange(w, k, se) && d.InSync(env, Coefs(t, w, k, 0, se) + after)
  }

  // The two halves of an AC symbol.
  function RunOf(s: Byte): (r: nat)
    ensures r < 16
  {
    s / 16
  }

  function SizeOf(s: Byte): (n: nat)
    ensures n < 16
  {
    s % 16
  }

  lemma Halves(s: Byte)
    ensures s == 16 * RunOf(s) + SizeOf(s)
    ensures SizeOf(s) == s % 16 && (s == 0xF0 ==> RunOf(s) == 15 && SizeOf(s) == 0)
  {
  }

  lemma HalvesOf(r: nat, n: nat)
    requires r < 16 && n < 16
    ensures RunOf(16 * r + n) == r && SizeOf(16 * r + n) == n
  {
  }

  lemma MeetFirst(t: nat, w: seq<int>, k: nat, se: nat, after: seq<Token>)
    requires |w| == 64 && k <= se < 64 && InRange(w, k, se)
    ensures var z, goal := NextCoef(w, k, se), Coefs(t, w, k, 0, se) + after;
      if z > se then goal == after
      else if z - k >= 16 then
        InRange(w, k + 16, se) && goal != [] && goal[0] == Sym(t, 0xF0) && goal[1..] == Coefs(t, w, k + 16, 0, se) + after
      else
        var n := NumBits(Abs(w[z]));
        && InRange(w, z + 1, se) && 1 <= n <= MAX_COEF_BITS && |goal| >= 2
        && goal[0] == Sym(t, 16 * (z - k) + n) && goal[1..][0] == Raw(ValueBits(w[z], n), n)
        && goal[1..][1..] == Coefs(t, w, z + 1, 0, se) + after && RunOf(goal[0].s) == z - k && SizeOf(goal[0].s) == n
  {
    hide NumBits, CoefTokens, Coefs, ValueBits, RunOf, SizeOf;
    var z := NextCoef(w, k, se);
    CoefsMeet(t, w, k, se);
    if z > se {
      assert [] + after == after;
    } else if z - k >= 16 {
      var rest := Coefs(t, w, k + 16, 0, se) + after;
      assert [Sym(t, 0xF0)] + Coefs(t, w, k + 16, 0, se) + after == [Sym(t, 0xF0)] + rest;
    } else {
      ShortRun(t, z - k, w[z]);
      HalvesOf(z - k, NumBits(Abs(w[z])));
      var rest := Coefs(t, w, z + 1, 0, se) + after;
      var n := NumBits(Abs(w[z]));
      var a, b := Sym(t, 16 * (z - k) + n), Raw(ValueBits(w[z], n), n);
      assert [a, b] + Coefs(t, w, z + 1, 0, se) + after == [a] + ([b] + rest);
    }
  }

  lemma PlacedNothing(area: seq<int>, at: nat, order: seq<nat>, w: seq<int>, al: nat, k: nat, k1: nat)
    requires IsOrder(order) && |w| == 64 && k <= k1 <= 64 && at + 64 <= |area| && forall i :: k <= i < k1 ==> w[i] == 0
    ensures Placed(area, at, order, w, al, k, k1) == area
  {
    PlacedZeros(area, at, order, w, al, k, k, k1);
  }

  lemma PlacedOne(area: seq<int>, at: nat, order: seq<nat>, w: seq<int>, al: nat, k: nat, z: nat)
    requires IsOrder(order) && |w| == 64 && k <= z < 64 && at + 64 <= |area|
    requires w[z] != 0 && forall i :: k <= i < z ==> w[i] == 0
    ensures order[z] == NaturalAt(order, z)
    ensures Placed(area, at, order, w, al, k, z + 1) == area[at + order[z] := ToShort(w[z] * Pow2(al))]
  {
    PlacedNothing(area, at, order, w, al, k, z);
  }

  // What a symbol of a band leads to.
  datatype Step = Step(more: bool, next: nat, r: nat, ws: seq<Write>)

  function StepFrom(input: seq<Byte>, tbl: JHuffTbl, dt: DDerived, c: Cursor, at: nat, order: seq<nat>, k: nat, al: nat): (f: Maybe<(Cursor, Step)>)
    requires IsOrder(order)
    ensures f.Just? ==> if f.value.1.more then f.value.1.next > k else f.value.1.r < 15 && f.value.1.ws == []
  {
    match Symbol(input, tbl, dt, c)
    case Nothing => Nothing
    case Just((next, s)) =>
      if SizeOf(s) != 0 then PutFrom(input, next, s, at, order, k, al)
      else if RunOf(s) == 15 then Just((next, Step(true, k + 16, 15, [])))
      else Just((next, Step(false, k, RunOf(s), [])))
  }

  function PutFrom(input: seq<Byte>, c: Cursor, s: Byte, at: nat, order: seq<nat>, k: nat, al: nat): (f: Maybe<(Cursor, Step)>)
    requires IsOrder(order) && SizeOf(s) != 0
    ensures f.Just? ==> f.value.1.more && f.value.1.next > k
  {
    match ValueFrom(input, c, SizeOf(s))
    case Nothing => Nothing
    case Just((next, v)) => Just((next, Placing(v, RunOf(s), at, order, k, al)))
  }

  function Placing(v: int, r: nat, at: nat, order: seq<nat>, k: nat, al: nat): Step
    requires IsOrder(order)
  {
    Step(true, k + r + 1, r, [Put(at + NaturalAt(order, k + r), ToShort(v * Pow2(al)))])
  }

  // Scale a coefficient and put it in natural order.
  method ReadCoef(d: Reader, n: nat, area: array<int>, at: nat, order: seq<nat>, k: nat, r: nat, al: nat,
                   ghost v: int, ghost env: Env, ghost goal: seq<Token>)
    returns (ok: bool, ghost value: int)
    requires d.Valid() && 1 <= n <= 16 && GoodEnv(env) && IsOrder(order) && at + 64 <= area.Length
    modifies d`pos, d`unreadMarker, d`getBuffer, d`bitsLeft, d`held, d`insufficientData, area
    ensures d.Unmarked(ok) && (if ok then d.Valid() else area[..] == old(area[..]))
    ensures old(d.InSync(env, goal)) && goal != [] && v != 0 && n == NumBits(Abs(v)) && goal[0] == Raw(ValueBits(v, n), n) ==>
      (d.avail == |d.input| ==> ok)
      && (ok ==> d.InSync(env, goal[1..]) && area[..] == old(area[..])[at + NaturalAt(order, k + r) := ToShort(v * Pow2(al))])
    ensures Tells(ok, d.avail == |d.input|, ValueFrom(d.input, old(d.Cur()), n), (d.Cur(), value))
    ensures ok ==> Wrote(Corrects(al), old(area[..]), area[..], Placing(value, r, at, order, k, al).ws)
  {
    hide Wrote;
    hide Reader.Valid, Reader.InSync, Pow2, NumBits, GoodEnv, ToShort, ValueBits, ValueFrom;
    var index, x := at + NaturalAt(order, k + r), 0;
    ok, x := ReadValue(d, n, v, env, goal);
    if ok {
      WroteOne(Corrects(al), area[..], Put(index, ToShort(x * Pow2(al))));
      area[index] := ToShort(x * Pow2(al));
    }
    value := x;
  }

  lemma PlacingIs(v: int, r: nat, at: nat, order: seq<nat>, k: nat, al: nat)
    requires IsOrder(order)
    ensures var step := Placing(v, r, at, order, k, al); step == Step(true, k + r + 1, r, step.ws)
  {
  }

  // One symbol of a band: a coefficient is placed, or 16 zeros are skipped, or `more` is false and r is what ends the band.
  method BandStep(d: Reader, t: nat, tbl: JHuffTbl, dt: DDerived, area: array<int>, at: nat, order: seq<nat>, k: nat, se: nat, al: nat,
                  ghost env: Env, ghost w: seq<int>, ghost after: seq<Token>)
    returns (ok: bool, more: bool, next: nat, r: nat, ghost ws: seq<Write>)
    requires d.Valid() && GoodEnv(env) && t < |env| && Accepted(tbl, dt)
    requires IsOrder(order) && k <= se < 64 && at + 64 <= area.Length
    modifies d`pos, d`unreadMarker, d`getBuffer, d`bitsLeft, d`held, d`insufficientData, area
    ensures d.Unmarked(ok) && (ok ==> d.Valid() && (more ==> next > k) && (!more ==> r < 15))
    ensures !ok ==> area[..] == old(area[..])
    ensures Tells(ok, d.avail == |d.input|, StepFrom(d.input, tbl, dt, old(d.Cur()), at, order, k, al), (d.Cur(), Step(more, next, r, ws)))
    ensures ok ==> Wrote(Corrects(al), old(area[..]), area[..], ws)
    ensures Shared(env[t], tbl, dt) && old(AtCoef(d, env, t, w, k, se, after)) && NextCoef(w, k, se) <= se ==>
      (d.avail == |d.input| ==> ok) &&
      (ok ==> more && next <= se + 1 && (next == se + 1 ==> w[se] != 0) && AtCoef(d, env, t, w, next, se, after)
              && area[..] == Placed(old(area[..]), at, order, w, al, k, next))
    ensures Shared(env[t], tbl, dt) && old(AtCoef(d, env, t, w, k, se, after)) && NextCoef(w, k, se) > se
            && after != [] && after[0].Sym? && after[0].tbl == t && after[0].s % 16 == 0 && after[0].s != 0xF0 ==>
      (d.avail == |d.input| ==> ok) &&
      (ok ==> !more && 16 * r == after[0].s && d.InSync(env, after[1..]) && area[..] == old(area[..]))
  {
    hide Reader.Valid, Reader.InSync, Pow2, NumBits, CoefTokens, Coefs, InRange, GoodEnv, Placed;
    hide ToShort, Shared, Accepted, IsOrder, NextCoef, ValueBits, RunOf, SizeOf;
    hide Symbol, ValueFrom, Wrote, Placing;
    ghost var sync := Shared(env[t], tbl, dt) && AtCoef(d, env, t, w, k, se, after);
    ghost var z := if sync then NextCoef(w, k, se) else 0;
    ghost var goal := if sync then Coefs(t, w, k, 0, se) + after else [];
    next, r, more, ws := k, 0, true, [];
    WroteNothing(Corrects(al), area[..]);
    if sync { MeetFirst(t, w, k, se, after); }
    var s;
    ok, s := d.ReadSymbol(t, tbl, dt, env, goal);
    if !ok {
      return;
    }
    Halves(s);
    r := RunOf(s);
    if SizeOf(s) != 0 {
      ghost var value;
      ok, value := ReadCoef(d, SizeOf(s), area, at, order, k, r, al, if sync && z <= se then w[z] else 0,
                            env, if goal != [] then goal[1..] else []);
      next := k + r + 1;
      ws := Placing(value, r, at, order, k, al).ws;
      PlacingIs(value, r, at, order, k, al);
      if sync && z <= se { PlacedOne(old(area[..]), at, order, w, al, k, z); }
    } else if r == 15 {
      next := k + 16;
      if sync && z <= se { PlacedNothing(old(area[..]), at, order, w, al, k, k + 16); }
    } else {
      more := false;
    }
  }

  // The blocks to come, of which d.eobrun belong to the run the decoder is in.
  ghost predicate AtBlocks(d: Reader, env: Env, t: nat, bs: seq<AcBlock>)
    requires GoodEnv(env) && d.Valid()
    reads d`pos, d`avail, d`unreadMarker, d`bitsLeft, d`getBuffer, d`held, d`pad, d`landing, d`insufficientData, d`eobrun
  {
    && d.eobrun <= |bs| && (forall i :: 0 <= i < d.eobrun ==> bs[i].head == [])
    && d.InSync(env, InRun(t, d.eobrun, bs))
  }

  function RunFrom(input: seq<Byte>, c: Cursor, r: nat): Maybe<(Cursor, nat)>
    requires r < 15
  {
    if r == 0 then Just((c, Pow2(0)))
    else
      match Bits(input, c, r)
      case Nothing => Nothing
      case Just((next, x)) => Just((next, Pow2(r) + x))
  }

  // The length of an EOB run, of which the symbol gave r.
  method ReadRunLength(d: Reader, r: nat, ghost e: nat, ghost env: Env, ghost goal: seq<Token>, ghost rest: seq<Token>)
    returns (ok: bool, run: nat)
    requires d.Valid() && r < 15 && GoodEnv(env)
    modifies d`pos, d`unreadMarker, d`getBuffer, d`bitsLeft, d`held, d`insufficientData
    ensures d.Unmarked(ok) && (ok ==> d.Valid() && run >= 1)
    ensures old(d.InSync(env, goal)) && e > 0 && r == NumBits(e) - 1
            && goal == (if NumBits(e) > 1 then [Raw(e % Pow2(NumBits(e) - 1), NumBits(e) - 1)] else []) + rest ==>
      (d.avail == |d.input| ==> ok) && (ok ==> run == e && d.InSync(env, rest))
    ensures Tells(ok, d.avail == |d.input|, RunFrom(d.input, old(d.Cur()), r), (d.Cur(), run))
  {
    hide Reader.Valid, Reader.InSync, GoodEnv, Bits;
    if e > 0 {
      LeadingPower(e);
      assert [] + rest == rest && ([Raw(e % Pow2(NumBits(e) - 1), NumBits(e) - 1)] + rest)[1..] == rest;
      hide NumBits;
    }
    ok := true;
    run := Pow2(r);
    if r > 0 {
      var x;
      ok, x := d.ReadRaw(r, env, goal);
      if !ok {
        return;
      }
      run := run + x;
    }
  }

  lemma LeadingPower(e: nat)
    requires e > 0
    ensures NumBits(e) >= 1 && e % Pow2(NumBits(e) - 1) + Pow2(NumBits(e) - 1) == e
    ensures e % Pow2(NumBits(e) - 1) < Pow2(NumBits(e) - 1)
    ensures NumBits(e) == 1 ==> e == 1
  {
    var p := Pow2(NumBits(e) - 1);
    assert Pow2(NumBits(e)) == 2 * p;
    hide Pow2, NumBits;
    Quotient(e, 1, p, e - p);
  }

  // What follows the coefficients of a block.
  ghost function AfterBlock(t: nat, b: AcBlock, bs: seq<AcBlock>): seq<Token> {
    if b.ends then EobSymbol(t, 1 + Joining(1, |b.tail|, bs)) + Raws(b.tail) + InRun(t, Joining(1, |b.tail|, bs), bs)
    else Stream(t, bs)
  }

  lemma StreamSplit(t: nat, bs: seq<AcBlock>)
    requires bs != []
    ensures Stream(t, bs) == bs[0].head + AfterBlock(t, bs[0], bs[1..])
  {
    if bs[0].ends { RunAhead(t, 1, bs[0].tail, bs[1..]); }
  }

  // The end of band after a block: its symbol, and what comes after the run length.
  lemma EobMeet(t: nat, e: nat, bits: seq<Bit>, rest: seq<Token>)
    requires 0 < e <= MAX_EOBRUN
    ensures var goal := EobSymbol(t, e) + Raws(bits) + rest; var n := NumBits(e);
      && 1 <= n <= 15 && goal != [] && goal[0] == Sym(t, 16 * (n - 1))
      && goal[1..] == (if n > 1 then [Raw(e % Pow2(n - 1), n - 1)] else []) + (Raws(bits) + rest)
  {
    RunLengthBits(e);
    hide NumBits, Pow2;
    var n := NumBits(e);
    var more := if n > 1 then [Raw(e % Pow2(n - 1), n - 1)] else [];
    assert EobSymbol(t, e) + Raws(bits) + rest == [Sym(t, 16 * (n - 1))] + (more + (Raws(bits) + rest));
  }

  lemma EndAhead(t: nat, e: nat, rest: seq<Token>)
    requires 0 < e <= MAX_EOBRUN
    ensures var after := EobSymbol(t, e) + rest; var n := NumBits(e);
      && 1 <= n <= 15 && after != [] && after[0] == Sym(t, 16 * (n - 1))
      && after[1..] == (if n > 1 then [Raw(e % Pow2(n - 1), n - 1)] else []) + rest
  {
    hide EobSymbol, NumBits;
    EobMeet(t, e, [], rest);
    assert Raws([]) + rest == rest && EobSymbol(t, e) + Raws([]) + rest == EobSymbol(t, e) + rest;
  }

  lemma {:induction false} PlacedBetween(area: seq<int>, at: nat, order: seq<nat>, w: seq<int>, al: nat, ss: nat, k: nat, k1: nat)
    requires IsOrder(order) && |w| == 64 && k <= k1 <= 64 && at + 64 <= |area|
    ensures Between(area, Placed(area, at, order, w, al, ss, k), Placed(area, at, order, w, al, ss, k1))
  {
    hide Pow2, ToShort;
    if k < k1 {
      PlacedBetween(area, at, order, w, al, ss, k, k1 - 1);
      PlacedAt(area, at, order, w, al, ss, k, k1 - 1);
    }
  }

  // The band from coefficient k on, ws having been written; the value read last is the length of the EOB run, or 0.
  function BandFrom(input: seq<Byte>, tbl: JHuffTbl, dt: DDerived, c: Cursor, at: nat, order: seq<nat>, k: nat, se: nat, al: nat,
                    ws: seq<Write>): (f: Outcome<(Cursor, nat)>)
    requires IsOrder(order)
    ensures ws <= f.ws
    decreases se + 1 - k
  {
    if k > se then Done((c, 0), ws)
    else
      match StepFrom(input, tbl, dt, c, at, order, k, al)
      case Nothing => Stuck(ws)
      case Just((c1, step)) =>
        if step.more then BandFrom(input, tbl, dt, c1, at, order, step.next, se, al, ws + step.ws)
        else
          match RunFrom(input, c1, step.r)
          case Nothing => Stuck(ws + step.ws)
          case Just(end) => Done(end, ws + step.ws)
  }

  lemma BandNext(input: seq<Byte>, tbl: JHuffTbl, dt: DDerived, c: Cursor, at: nat, order: seq<nat>, k: nat, se: nat, al: nat, ws: seq<Write>)
    requires IsOrder(order) && k <= se
    ensures BandFrom(input, tbl, dt, c, at, order, k, se, al, ws) ==
      match StepFrom(input, tbl, dt, c, at, order, k, al)
      case Nothing => Stuck(ws)
      case Just((c1, step)) =>
        if step.more then BandFrom(input, tbl, dt, c1, at, order, step.next, se, al, ws + step.ws)
        else
          match RunFrom(input, c1, step.r)
          case Nothing => Stuck(ws + step.ws)
          case Just(end) => Done(end, ws + step.ws)
  {
  }

  lemma BandDone(input: seq<Byte>, tbl: JHuffTbl, dt: DDerived, c: Cursor, at: nat, order: seq<nat>, k: nat, se: nat, al: nat, ws: seq<Write>)
    requires IsOrder(order) && k > se
    ensures BandFrom(input, tbl, dt, c, at, order, k, se, al, ws) == Done((c, 0), ws)
  {
  }

  // The coefficient loop of decode_mcu_AC_first; run is 0 when the band was complete.
  method DecodeBand(d: Reader, t: nat, tbl: JHuffTbl, dt: DDerived, area: array<int>, at: nat, order: seq<nat>, ss: nat, se: nat, al: nat,
                    ghost env: Env, ghost w: seq<int>, ghost e: nat, ghost rest: seq<Token>)
    returns (ok: bool, run: nat, ghost ws: seq<Write>)
    requires d.Valid() && GoodEnv(env) && t < |env| && Accepted(tbl, dt) && e <= MAX_EOBRUN
    requires IsOrder(order) && ss <= se < 64 && at + 64 <= area.Length
    modifies d`pos, d`unreadMarker, d`getBuffer, d`bitsLeft, d`held, d`insufficientData, area
    ensures d.Unmarked(ok) && (ok ==> d.Valid())
    ensures Wrote(Corrects(al), old(area[..]), area[..], ws)
    ensures Follows(ok, d.avail == |d.input|, BandFrom(d.input, tbl, dt, old(d.Cur()), at, order, ss, se, al, []), (d.Cur(), run), ws)
    ensures Shared(env[t], tbl, dt) && |w| == 64 && (e > 0 <==> w[se] == 0)
            && old(AtCoef(d, env, t, w, ss, se, (if e > 0 then EobSymbol(t, e) else []) + rest)) ==>
      (d.avail == |d.input| ==> ok)
      && if ok then run == e && d.InSync(env, rest) && area[..] == Placed(old(area[..]), at, order, w, al, ss, se + 1)
         else Between(old(area[..]), area[..], Placed(old(area[..]), at, order, w, al, ss, se + 1))
  {
    hide Reader.Valid, Reader.InSync, GoodEnv, Placed, Shared, Accepted, IsOrder, NumBits, Pow2, AtCoef, EobSymbol, Coefs, Between, InRange;
    hide StepFrom, Wrote, RunFrom, BandFrom;
    ghost var after := (if e > 0 then EobSymbol(t, e) else []) + rest;
    ghost var sync := Shared(env[t], tbl, dt) && |w| == 64 && (e > 0 <==> w[se] == 0) && AtCoef(d, env, t, w, ss, se, after);
    ghost var area0 := area[..];
    if sync {
      PlacedNothing(area0, at, order, w, al, ss, ss);
      if e > 0 { EndAhead(t, e, rest); }
    }
    run, ws := 0, [];
    WroteNothing(Corrects(al), area0);
    ghost var whole := BandFrom(d.input, tbl, dt, d.Cur(), at, order, ss, se, al, []);
    var k := ss;
    while k <= se
      invariant BandFrom(d.input, tbl, dt, d.Cur(), at, order, k, se, al, ws) == whole && Wrote(Corrects(al), area0, area[..], ws)
      invariant d.Valid() && d.Unmarked(true) && ss <= k && (sync ==> k <= se + 1)
      invariant sync ==> AtCoef(d, env, t, w, k, se, after) && area[..] == Placed(area0, at, order, w, al, ss, k)
      invariant sync && k == se + 1 ==> w[se] != 0
    {
      var more, next, r;
      ghost var step, mid := [], area[..];
      BandNext(d.input, tbl, dt, d.Cur(), at, order, k, se, al, ws);
      ok, more, next, r, step := BandStep(d, t, tbl, dt, area, at, order, k, se, al, env, w, after);
      if sync { PlacedBetween(area0, at, order, w, al, ss, k, se + 1); }
      if !ok {
        return;
      }
      WroteMore(Corrects(al), area0, mid, area[..], ws, step);
      ws := ws + step;
      if !more {
        ok, run := ReadRunLength(d, r, e, env, if after != [] then after[1..] else [], rest);
        if sync { PlacedZeros(area0, at, order, w, al, ss, k, se + 1); }
        return;
      }
      if sync { PlacedAgain(area0, at, order, w, al, ss, k, next); }
      k := next;
    }
    BandDone(d.input, tbl, dt, d.Cur(), at, order, k, se, al, ws);
    if sync { AfterCoefs(d, env, t, w, k, se, after); assert [] + rest == rest; }
    ok := true;
  }

  lemma AfterCoefs(d: Reader, env: Env, t: nat, w: seq<int>, k: nat, se: nat, after: seq<Token>)
    requires GoodEnv(env) && d.Valid() && AtCoef(d, env, t, w, k, se, after) && k > se
    ensures d.InSync(env, after)
  {
    assert [] + after == after;
  }

  // The decoder begins a band: what is left of its first run, if one begins in it, and the tokens after the band.
  lemma BandOpens(d: Reader, env: Env, t: nat, w: seq<int>, ss: nat, se: nat, bs: seq<AcBlock>) returns (n: nat, rest: seq<Token>)
    requires GoodEnv(env) && d.Valid() && |w| == 64 && ss <= se < 64 && InRange(w, ss, se) && d.eobrun == 0
    requires bs != [] && bs[0] == FirstBlock(t, w, ss, se) && AtBlocks(d, env, t, bs)
    ensures n <= MAX_EOBRUN && (n > 0 <==> w[se] == 0)
    ensures AtCoef(d, env, t, w, ss, se, (if n > 0 then EobSymbol(t, n) else []) + rest)
    ensures var left := if n > 0 then n - 1 else 0;
      left <= |bs[1..]| && rest == InRun(t, left, bs[1..]) && forall i :: 0 <= i < left ==> bs[1..][i].head == []
  {
    hide Reader.Valid, Reader.InSync, GoodEnv, Coefs, EobSymbol, InRange, InRun;
    StreamSplit(t, bs);
    NoRun(t, bs);
    NoRun(t, bs[1..]);
    n := if bs[0].ends then 1 + Joining(1, 0, bs[1..]) else 0;
    rest := if bs[0].ends then InRun(t, n - 1, bs[1..]) else Stream(t, bs[1..]);
    FirstAfter(t, bs[0], bs[1..], n, rest);
  }

  function AcFirstFrom(input: seq<Byte>, tbl: JHuffTbl, dt: DDerived, c: Cursor, eobrun: nat, at: nat, order: seq<nat>, ss: nat, se: nat, al: nat)
    : Outcome<(Cursor, nat)>
    requires IsOrder(order)
  {
    if eobrun > 0 then Done((c, eobrun - 1), [])
    else
      match BandFrom(input, tbl, dt, c, at, order, ss, se, al, [])
      case Stuck(ws) => Stuck(ws)
      case Done((next, run), ws) => Done((next, if run > 0 then run - 1 else 0), ws)
  }

  // decode_mcu_AC_first for one block
  method DecodeAcFirst(d: Reader, t: nat, tbl: JHuffTbl, dt: DDerived, area: array<int>, at: nat, order: seq<nat>, ss: nat, se: nat, al: nat,
                       ghost env: Env, ghost w: seq<int>, ghost bs: seq<AcBlock>)
    returns (ok: bool, ghost ws: seq<Write>)
    requires d.Valid() && GoodEnv(env) && t < |env| && Accepted(tbl, dt)
    requires IsOrder(order) && ss <= se < 64 && at + 64 <= area.Length
    modifies d`pos, d`unreadMarker, d`getBuffer, d`bitsLeft, d`held, d`insufficientData, d`eobrun, area
    ensures d.Unmarked(ok) && (if ok then d.Valid() else d.eobrun == old(d.eobrun))
    ensures Wrote(Corrects(al), old(area[..]), area[..], ws)
    ensures Follows(ok, d.avail == |d.input|, AcFirstFrom(d.input, tbl, dt, old(d.Cur()), old(d.eobrun), at, order, ss, se, al),
                    (d.Cur(), d.eobrun), ws)
    ensures Shared(env[t], tbl, dt) && |w| == 64 && InRange(w, ss, se) && bs != [] && bs[0] == FirstBlock(t, w, ss, se)
            && old(AtBlocks(d, env, t, bs)) ==>
      (d.avail == |d.input| ==> ok)
      && if ok then AtBlocks(d, env, t, bs[1..]) && area[..] == Placed(old(area[..]), at, order, w, al, ss, se + 1)
         else Between(old(area[..]), area[..], Placed(old(area[..]), at, order, w, al, ss, se + 1))
  {
    hide Reader.Valid, Reader.InSync, GoodEnv, Placed, Shared, Accepted, IsOrder, Coefs, EobSymbol, InRange, InRun;
    hide Wrote, BandFrom, Between, AtCoef;
    ok, ws := true, [];
    WroteNothing(Corrects(al), area[..]);
    ghost var sync := Shared(env[t], tbl, dt) && |w| == 64 && InRange(w, ss, se) && bs != [] && bs[0] == FirstBlock(t, w, ss, se)
      && AtBlocks(d, env, t, bs);
    if d.eobrun > 0 {
      d.eobrun := d.eobrun - 1;
      if sync {
        RunGoesOn(t, d.eobrun + 1, bs);
        CoefsEnd(t, w, ss, 0, se);
        PlacedNothing(area[..], at, order, w, al, ss, se + 1);
      }
    } else {
      ghost var n, rest := 0, [];
      if sync { n, rest := BandOpens(d, env, t, w, ss, se, bs); }
      var run;
      ok, run, ws := DecodeBand(d, t, tbl, dt, area, at, order, ss, se, al, env, w, n, rest);
      if ok {
        d.eobrun := if run > 0 then run - 1 else 0;
      }
    }
  }

  lemma NoRun(t: nat, bs: seq<AcBlock>)
    ensures InRun(t, 0, bs) == Stream(t, bs)
  {
  }

  lemma RunGoesOn(t: nat, n: nat, bs: seq<AcBlock>)
    requires 0 < n <= |bs|
    ensures InRun(t, n, bs) == Raws(bs[0].tail) + InRun(t, n - 1, bs[1..])
    ensures bs[0].tail == [] ==> InRun(t, n, bs) == InRun(t, n - 1, bs[1..])
  {
    assert Raws([]) + InRun(t, n - 1, bs[1..]) == InRun(t, n - 1, bs[1..]);
  }

  lemma FirstAfter(t: nat, b: AcBlock, bs: seq<AcBlock>, n: nat, rest: seq<Token>)
    requires b.tail == [] && n == (if b.ends then 1 + Joining(1, 0, bs) else 0)
    requires rest == if b.ends then InRun(t, n - 1, bs) else Stream(t, bs)
    ensures n <= MAX_EOBRUN && AfterBlock(t, b, bs) == (if n > 0 then EobSymbol(t, n) else []) + rest
  {
    hide EobSymbol;
    assert [] + rest == rest;
    if b.ends { assert EobSymbol(t, n) + Raws([]) + rest == EobSymbol(t, n) + rest; }
  }
}
