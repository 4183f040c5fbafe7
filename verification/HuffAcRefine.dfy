// AC refinement: new coefficients after runs of zeros, correction bits for the old ones (section G.1.2.3 of ITU-T T.81).
module HuffAcRefine {
  import opened Numbers
  import opened ArithModel
  import opened HuffTokens
  import opened HuffWriter
  import opened HuffEobRun
  import opened HuffValues
  import opened HuffAcFirst

  // ----- what a block contributes; a is in zigzag order at bit Al -----

  // Last coefficient of the band that becomes nonzero in this scan, 0 if there is none.
  function LastNew(a: seq<int>, ss: nat, k: nat): (eob: nat)
    requires |a| == 64 && 1 <= ss && k <= 64
    ensures eob == 0 || (ss <= eob < k && Abs(a[eob]) == 1)
    ensures forall i :: ss <= i < k && eob < i ==> Abs(a[i]) != 1
  {
    if k <= ss then 0 else if Abs(a[k - 1]) == 1 then k - 1 else LastNew(a, ss, k - 1)
  }

  // Correction bits of the coefficients from k up to k1.
  function Corr(a: seq<int>, k: nat, k1: nat): (bits: seq<Bit>)
    requires k1 <= |a|
    ensures |bits| <= if k <= k1 then k1 - k else 0
    decreases k1 - k
  {
    if k >= k1 then [] else (if Abs(a[k]) > 1 then [Abs(a[k]) % 2] else []) + Corr(a, k + 1, k1)
  }

  lemma {:induction false} CorrSnoc(a: seq<int>, k: nat, k1: nat)
    requires k <= k1 < |a|
    ensures Corr(a, k, k1 + 1) == Corr(a, k, k1) + if Abs(a[k1]) > 1 then [Abs(a[k1]) % 2] else []
    decreases k1 - k
  {
    if k < k1 { CorrSnoc(a, k + 1, k1); }
  }

  // A symbol, with the sign bit of a new coefficient after it.
  function Marked(t: nat, s: Byte, signed: bool, sign: Bit): seq<Token> {
    [Sym(t, s)] + if signed then [Raw(sign, 1)] else []
  }

  // The sign bit of a coefficient that becomes nonzero.
  function Sign(v: int): Bit { if v < 0 then 0 else 1 }

  // A new coefficient after r zeros.
  function NewCoef(t: nat, r: nat, v: int): seq<Token>
    requires r < 16
  {
    Marked(t, 16 * r + 1, true, Sign(v))
  }

  // The coder at coefficient k: r zeros and the correction bits br are waiting for the next symbol.
  function NewHead(t: nat, a: seq<int>, k: nat, r: nat, br: seq<Bit>, eob: nat): seq<Token>
    requires eob < |a|
    decreases if k <= eob then eob + 1 - k else 0, r
  {
    if k > eob then []
    else if a[k] == 0 then NewHead(t, a, k + 1, r + 1, br, eob)
    else if r > 15 then [Sym(t, 0xF0)] + Raws(br) + NewHead(t, a, k, r - 16, [], eob)
    else if Abs(a[k]) > 1 then NewHead(t, a, k + 1, r, br + [Abs(a[k]) % 2], eob)
    else NewCoef(t, r, a[k]) + Raws(br) + NewHead(t, a, k + 1, 0, [], eob)
  }

  function TailStart(ss: nat, eob: nat): nat {
    if eob == 0 then ss else eob + 1
  }

  function RefineBlock(t: nat, a: seq<int>, ss: nat, se: nat): AcBlock
    requires |a| == 64 && 1 <= ss <= se < 64
  {
    var eob := LastNew(a, ss, se + 1);
    AcBlock(NewHead(t, a, ss, 0, [], eob), TailStart(ss, eob) <= se, Corr(a, TailStart(ss, eob), se + 1))
  }

  lemma {:induction false} HeadStarts(t: nat, a: seq<int>, k: nat, r: nat, br: seq<Bit>, eob: nat)
    requires eob < |a| && k <= eob && Abs(a[eob]) == 1
    ensures NewHead(t, a, k, r, br, eob) != []
    decreases eob - k
  {
    if a[k] == 0 {
      HeadStarts(t, a, k + 1, r + 1, br, eob);
    } else if r <= 15 && Abs(a[k]) > 1 {
      HeadStarts(t, a, k + 1, r, br + [Abs(a[k]) % 2], eob);
    }
  }

  lemma RefineBlockOk(t: nat, a: seq<int>, ss: nat, se: nat)
    requires |a| == 64 && 1 <= ss <= se < 64
    ensures RefineBlock(t, a, ss, se).Ok()
    ensures RefineBlock(t, a, ss, se).head == [] <==> LastNew(a, ss, se + 1) == 0
  {
    var eob := LastNew(a, ss, se + 1);
    if eob > 0 { HeadStarts(t, a, ss, 0, [], eob); }
  }

  // Sixteen zeros more make a ZRL, which takes the waiting correction bits along.
  lemma {:induction false} ZrlWith(t: nat, a: seq<int>, k: nat, r: nat, br: seq<Bit>, eob: nat)
    requires eob < |a| && k <= eob && a[eob] != 0
    ensures NewHead(t, a, k, r + 16, br, eob) == [Sym(t, 0xF0)] + Raws(br) + NewHead(t, a, k, r, [], eob)
    decreases eob - k
  {
    if a[k] == 0 { ZrlWith(t, a, k + 1, r + 1, br, eob); }
  }

  // ----- the decoder's view -----

  // Where the next symbol leads, r zeros having been passed: to the next new coefficient, or to the 16th zero (n == 16).
  function Stop(a: seq<int>, k: nat, r: nat, eob: nat): (s: (nat, nat))
    requires eob < |a| && k <= eob && Abs(a[eob]) == 1 && r < 16
    ensures k <= s.0 <= eob && r <= s.1 <= 16
    ensures if s.1 == 16 then a[s.0] == 0 && s.0 < eob else Abs(a[s.0]) == 1
    ensures forall i :: k <= i < s.0 ==> Abs(a[i]) != 1
    decreases eob - k
  {
    if Abs(a[k]) == 1 then (k, r)
    else if a[k] == 0 then if r == 15 then (k, 16) else Stop(a, k + 1, r + 1, eob)
    else Stop(a, k + 1, r, eob)
  }

  // Where the decoder gets by passing r coefficients that were zero before this scan.
  function Passed(a: seq<int>, k: nat, r: nat, se: nat): (z: nat)
    requires se < |a|
    ensures z >= k && (k <= se + 1 ==> z <= se + 1)
    decreases se + 1 - k
  {
    if k > se then k
    else if Abs(a[k]) > 1 then Passed(a, k + 1, r, se)
    else if r == 0 then k
    else Passed(a, k + 1, r - 1, se)
  }

  // What the coder does at one coefficient.
  lemma HeadStep(t: nat, a: seq<int>, k: nat, r: nat, br: seq<Bit>, eob: nat)
    requires eob < |a| && k <= eob && r < 16
    ensures NewHead(t, a, k, r, br, eob)
      == if a[k] == 0 then NewHead(t, a, k + 1, r + 1, br, eob)
         else if Abs(a[k]) > 1 then NewHead(t, a, k + 1, r, br + [Abs(a[k]) % 2], eob)
         else NewCoef(t, r, a[k]) + Raws(br) + NewHead(t, a, k + 1, 0, [], eob)
  {
    hide NewCoef, Raws;
  }

  lemma PassedStep(a: seq<int>, k: nat, r: nat, se: nat)
    requires k <= se < |a|
    ensures Passed(a, k, r, se)
      == if Abs(a[k]) > 1 then Passed(a, k + 1, r, se) else if r == 0 then k else Passed(a, k + 1, r - 1, se)
  {
  }

  lemma StopStep(a: seq<int>, k: nat, r: nat, eob: nat)
    requires eob < |a| && k <= eob && Abs(a[eob]) == 1 && r < 16
    ensures Stop(a, k, r, eob)
      == if Abs(a[k]) == 1 then (k, r)
         else if a[k] == 0 then if r == 15 then (k, 16) else Stop(a, k + 1, r + 1, eob)
         else Stop(a, k + 1, r, eob)
  {
  }

  lemma NoCorr(a: seq<int>, k: nat, br: seq<Bit>)
    requires k <= |a|
    ensures br + Corr(a, k, k) == br
  {
  }

  // The symbol that leads to z, n zeros having been passed.
  function StopTokens(t: nat, a: seq<int>, z: nat, n: nat): seq<Token>
    requires z < |a| && n <= 16
  {
    if n == 16 then [Sym(t, 0xF0)] else NewCoef(t, n, a[z])
  }

  // Coder and decoder agree: the tokens at a coefficient are a symbol and the correction bits of what it passes.
  lemma {:induction false} HeadMeets(t: nat, a: seq<int>, k: nat, r: nat, br: seq<Bit>, eob: nat, se: nat)
    requires eob <= se < |a| && k <= eob && Abs(a[eob]) == 1 && r < 16
    ensures var (z, n) := Stop(a, k, r, eob);
      && z == Passed(a, k, (if n == 16 then 15 else n) - r, se)
      && NewHead(t, a, k, r, br, eob) == StopTokens(t, a, z, n) + Raws(br + Corr(a, k, z)) + NewHead(t, a, z + 1, 0, [], eob)
    decreases eob - k
  {
    hide NewCoef, Raws, Corr, NewHead, Passed, Stop;
    var (z, n) := Stop(a, k, r, eob);
    StopStep(a, k, r, eob);
    HeadStep(t, a, k, r, br, eob);
    PassedStep(a, k, (if n == 16 then 15 else n) - r, se);
    NoCorr(a, k, br);
    if a[k] == 0 {
      if r == 15 {
        ZrlWith(t, a, k + 1, 0, br, eob);
      } else {
        HeadMeets(t, a, k + 1, r + 1, br, eob, se);
        CorrHead(a, k, z, br);
      }
    } else if Abs(a[k]) > 1 {
      HeadMeets(t, a, k + 1, r, br + [Abs(a[k]) % 2], eob, se);
      CorrHead(a, k, z, br);
    }
  }

  lemma CorrHead(a: seq<int>, k: nat, z: nat, br: seq<Bit>)
    requires k < z <= |a|
    ensures br + Corr(a, k, z) == (if Abs(a[k]) > 1 then br + [Abs(a[k]) % 2] else br) + Corr(a, k + 1, z)
  {
  }

  // ----- the coder -----

  // The tokens of a block up to its last new coefficient, the saved run and its correction bits first.
  function HeadWith(t: nat, e: nat, bits: seq<Bit>, head: seq<Token>): seq<Token>
    requires e <= MAX_EOBRUN
  {
    if head == [] then [] else Eob(t, e, bits) + head
  }

  // In the middle of a block: `done` has been emitted, and br waits in the buffer at start, behind what was saved before.
  ghost predicate Amid(w: Writer, t: nat, e: nat, bits: seq<Bit>, log0: seq<Token>, done: seq<Token>, start: nat, br: seq<Bit>)
    reads w, w.bitBuffer
  {
    && e <= MAX_EOBRUN && start == w.be && Saved(w, if done == [] then bits else [])
    && w.eobrun == (if done == [] then e else 0) && w.log == log0 + HeadWith(t, e, bits, done)
    && start + |br| <= MAX_CORR_BITS && w.bitBuffer[start..start + |br|] == br
  }

  lemma OneCodable(env: Env, t: Token)
    requires GoodEnv(env)
    ensures Codable(env, [t]) <==> HasCode(env, t)
  {
    assert [t][0] == t;
  }

  lemma SignCodable(env: Env, signs: seq<Token>)
    requires GoodEnv(env) && |signs| <= 1 && forall i :: 0 <= i < |signs| ==> signs[i].Raw? && signs[i].n == 1
    ensures Codable(env, signs)
  {
  }

  lemma MarkedCodable(env: Env, t: nat, s: Byte, signed: bool, sign: Bit)
    requires GoodEnv(env)
    ensures Codable(env, Marked(t, s, signed, sign)) <==> HasCode(env, Sym(t, s))
  {
    SignCodable(env, if signed then [Raw(sign, 1)] else []);
    OneCodable(env, Sym(t, s));
    hide Codable, HasCode, GoodEnv;
    CodableConcat(env, [Sym(t, s)], if signed then [Raw(sign, 1)] else []);
  }

  // The run that a symbol sends ahead of itself.
  function RunBefore(t: nat, e: nat, bits: seq<Bit>, done: seq<Token>): seq<Token>
    requires e <= MAX_EOBRUN
  {
    if done == [] then Eob(t, e, bits) else []
  }

  // The symbol, and the sign bit of a new coefficient.
  method EmitMark(w: Writer, t: nat, s: Byte, signed: bool, sign: Bit) returns (ok: bool)
    requires w.Valid() && t < 2 * NUM_HUFF_TBLS
    modifies w`putBuffer, w`putBits, w`out, w`code, w`pending, w`log, w`counts
    ensures GoodEnv(w.env)
    ensures ok <==> w.gather || HasCode(w.env, Sym(t, s))
    ensures ok ==> w.Valid() && w.log == old(w.log) + Marked(t, s, signed, sign)
  {
    assert Pow2(1) == 2;
    MarkedParts(t, s, signed, sign);
    hide Writer.Valid, HasCode, GoodEnv, Pow2, Marked;
    EnvOf(w);
    ok := w.EmitSymbol(t, s);
    if ok && signed {
      Ungrouped(old(w.log), [Sym(t, s)], [Raw(sign, 1)]);
      ok := w.EmitRaw(sign, 1);
    }
  }

  // The run still pending and its correction bits, then the symbol.
  method EmitMarked(w: Writer, t: nat, s: Byte, signed: bool, sign: Bit, ghost bits: seq<Bit>) returns (ok: bool)
    requires w.Valid() && Saved(w, bits) && t < 2 * NUM_HUFF_TBLS
    modifies w`putBuffer, w`putBits, w`out, w`code, w`pending, w`log, w`counts, w`eobrun, w`be
    ensures GoodEnv(w.env)
    ensures !ok ==> !w.gather && !Codable(w.env, Eob(t, old(w.eobrun), bits) + Marked(t, s, signed, sign))
    ensures ok ==> w.Valid() && w.eobrun == w.be == 0
    ensures ok ==> w.log == old(w.log) + (Eob(t, old(w.eobrun), bits) + Marked(t, s, signed, sign))
  {
    hide Writer.Valid, Codable, HasCode, GoodEnv, Eob, Marked;
    EnvOf(w);
    ghost var run, mark := Eob(t, w.eobrun, bits), Marked(t, s, signed, sign);
    CodableConcat(w.env, run, mark);
    MarkedCodable(w.env, t, s, signed, sign);
    Ungrouped(w.log, run, mark);
    ok := EmitEobrun(w, t, bits);
    if ok {
      ok := EmitMark(w, t, s, signed, sign);
    }
  }

  lemma MarkedParts(t: nat, s: Byte, signed: bool, sign: Bit)
    ensures Marked(t, s, signed, sign) == [Sym(t, s)] + if signed then [Raw(sign, 1)] else []
    ensures !signed ==> Marked(t, s, signed, sign) == [Sym(t, s)]
  {
  }

  lemma Regroup(a: seq<Token>, b: seq<Token>, c: seq<Token>, d: seq<Token>)
    ensures a + b + c + d == a + (b + (c + d))
    ensures a + b + c + [] == a + b + c
  {
    Ungrouped(a + b, c, d);
    Ungrouped(a, b, c + d);
  }

  // A symbol, its sign bit if it is that of a new coefficient, and the correction bits that go with it.
  method EmitWithBits(w: Writer, t: nat, s: Byte, signed: bool, sign: Bit, start: nat, n: nat,
                      ghost e: nat, ghost bits: seq<Bit>, ghost log0: seq<Token>, ghost done: seq<Token>, ghost br: seq<Bit>)
    returns (ok: bool)
    requires w.Valid() && Amid(w, t, e, bits, log0, done, start, br) && n == |br| && t < 2 * NUM_HUFF_TBLS
    modifies w`putBuffer, w`putBits, w`out, w`code, w`pending, w`log, w`counts, w`eobrun, w`be
    ensures GoodEnv(w.env)
    ensures !ok ==> !w.gather && !Codable(w.env, RunBefore(t, e, bits, done) + Marked(t, s, signed, sign))
    ensures ok ==> w.Valid() && Amid(w, t, e, bits, log0, done + (Marked(t, s, signed, sign) + Raws(br)), 0, [])
  {
    hide Writer.Valid, Codable, HasCode, GoodEnv, Eob, Raws, HeadWith;
    NoEob(t, []);
    EnvOf(w);
    ok := EmitMarked(w, t, s, signed, sign, if done == [] then bits else []);
    if !ok {
      return;
    }
    EmitBufferedBits(w, start, n);
    HeadWithMore(t, e, bits, log0, done, Marked(t, s, signed, sign), Raws(br));
  }

  lemma HeadWithMore(t: nat, e: nat, bits: seq<Bit>, log0: seq<Token>, done: seq<Token>, first: seq<Token>, raws: seq<Token>)
    requires e <= MAX_EOBRUN && first != []
    ensures log0 + HeadWith(t, e, bits, done) + (RunBefore(t, e, bits, done) + first) + raws
      == log0 + HeadWith(t, e, bits, done + (first + raws))
  {
    hide Eob;
    var h, x := HeadWith(t, e, bits, done), first + raws;
    Regroup(log0, h, RunBefore(t, e, bits, done) + first, raws);
    Ungrouped(RunBefore(t, e, bits, done), first, raws);
    Ungrouped(Eob(t, e, bits), done, x);
    EmptySides(x);
    EmptySides(Eob(t, e, bits) + x);
  }

  lemma EmptySides(a: seq<Token>)
    ensures [] + a == a + [] == a
  {
  }

  // The next symbol is among the tokens of the block.
  lemma SymbolInside(env: Env, t: nat, e: nat, bits: seq<Bit>, done: seq<Token>, first: seq<Token>, raws: seq<Token>, rest: seq<Token>)
    requires GoodEnv(env) && e <= MAX_EOBRUN && first != []
    requires Codable(env, HeadWith(t, e, bits, done + (first + raws) + rest))
    ensures Codable(env, RunBefore(t, e, bits, done) + first)
  {
    hide Codable, Eob, GoodEnv;
    NothingCodable(env);
    CodableConcat(env, Eob(t, e, bits), done + (first + raws) + rest);
    CodableConcat(env, done + (first + raws), rest);
    CodableConcat(env, done, first + raws);
    CodableConcat(env, first, raws);
    CodableConcat(env, RunBefore(t, e, bits, done), first);
  }

  // Coefficient k of the band is next; r, start and br are the coder's variables, head is what the block has to come to.
  ghost predicate Working(w: Writer, t: nat, e: nat, bits: seq<Bit>, log0: seq<Token>, a: seq<int>, ss: nat, se: nat,
                          k: nat, r: nat, start: nat, done: seq<Token>, br: seq<Bit>)
    requires |a| == 64 && 1 <= ss <= se < 64
    reads w, w.bitBuffer
  {
    var b := RefineBlock(t, a, ss, se);
    && Amid(w, t, e, bits, log0, done, start, br) && ss <= k <= se + 1
    && start + |br| + ss <= MAX_CORR_BITS - 63 + k
    && b.head == done + NewHead(t, a, k, r, br, LastNew(a, ss, se + 1))
    && InTail(a, TailStart(ss, LastNew(a, ss, se + 1)), k, r, br)
  }

  // Past the last new coefficient only zeros and correction bits are left.
  ghost predicate InTail(a: seq<int>, start: nat, k: nat, r: nat, br: seq<Bit>) {
    start <= k <= |a| ==> br == Corr(a, start, k) && (r > 0 || br != [] <==> k > start)
  }

  // ZRLs, except behind the last new coefficient, where the end of the block covers them.
  method EmitZrlsWith(w: Writer, t: nat, k: nat, run: nat, eob: nat, from: nat, waiting: nat,
                      ghost e: nat, ghost bits: seq<Bit>, ghost log0: seq<Token>, ghost a: seq<int>, ghost head: seq<Token>,
                      ghost done0: seq<Token>, ghost br0: seq<Bit>)
    returns (ok: bool, r: nat, start: nat, n: nat, ghost done: seq<Token>, ghost br: seq<Bit>)
    requires w.Valid() && Amid(w, t, e, bits, log0, done0, from, br0) && waiting == |br0| && t < 2 * NUM_HUFF_TBLS
    requires eob < |a| && k < |a| && a[k] != 0 && head == done0 + NewHead(t, a, k, run, br0, eob)
    modifies w`putBuffer, w`putBits, w`out, w`code, w`pending, w`log, w`counts, w`eobrun, w`be
    ensures GoodEnv(w.env) && e <= MAX_EOBRUN
    ensures !ok ==> !w.gather && !Codable(w.env, HeadWith(t, e, bits, head))
    ensures ok ==> w.Valid() && Amid(w, t, e, bits, log0, done, start, br) && n == |br|
    ensures ok ==> head == done + NewHead(t, a, k, r, br, eob) && start + |br| <= from + |br0|
    ensures ok ==> if k <= eob then r <= 15 else r == run && br == br0
  {
    hide Writer.Valid, Codable, GoodEnv, Eob, Raws, HeadWith, Amid, Marked, RunBefore;
    EnvOf(w);
    r, start, n, done, br := run, from, waiting, done0, br0;
    ok := true;
    NoWait(w, t, e, bits, log0, done, start, br);
    while r > 15 && k <= eob
      invariant w.Valid() && Amid(w, t, e, bits, log0, done, start, br) && n == |br| && ok
      invariant head == done + NewHead(t, a, k, r, br, eob) && start + |br| <= from + |br0|
      invariant k > eob ==> r == run && br == br0
      decreases r
    {
      ghost var x, rest := Marked(t, 0xF0, false, 0) + Raws(br), NewHead(t, a, k, r - 16, [], eob);
      ZrlNext(t, a, k, r, br, eob);
      Ungrouped(done, x, rest);
      if !w.gather && Codable(w.env, HeadWith(t, e, bits, head)) {
        SymbolInside(w.env, t, e, bits, done, Marked(t, 0xF0, false, 0), Raws(br), rest);
      }
      ok := EmitWithBits(w, t, 0xF0, false, 0, start, n, e, bits, log0, done, br);
      if !ok {
        return;
      }
      r := r - 16;
      done, br := done + x, [];
      start, n := 0, 0;
    }
  }

  lemma NoWait(w: Writer, t: nat, e: nat, bits: seq<Bit>, log0: seq<Token>, done: seq<Token>, start: nat, br: seq<Bit>)
    requires Amid(w, t, e, bits, log0, done, start, br)
    ensures e <= MAX_EOBRUN
  {
  }

  lemma ZrlNext(t: nat, a: seq<int>, k: nat, r: nat, br: seq<Bit>, eob: nat)
    requires eob < |a| && k <= eob && a[k] != 0 && r > 15
    ensures NewHead(t, a, k, r, br, eob) == Marked(t, 0xF0, false, 0) + Raws(br) + NewHead(t, a, k, r - 16, [], eob)
    ensures Marked(t, 0xF0, false, 0) != []
  {
    MarkedParts(t, 0xF0, false, 0);
    hide Marked, Raws;
  }

  // BR_buffer[BR++]
  method AppendBit(w: Writer, start: nat, n: nat, bit: Bit, ghost t: nat, ghost e: nat, ghost bits: seq<Bit>, ghost log0: seq<Token>,
                   ghost done: seq<Token>, ghost br: seq<Bit>)
    requires w.Valid() && Amid(w, t, e, bits, log0, done, start, br) && n == |br| && start + n < MAX_CORR_BITS
    modifies w.bitBuffer
    ensures w.Valid() && Amid(w, t, e, bits, log0, done, start, br + [bit])
  {
    hide Writer.Valid, HeadWith;
    ghost var before := w.bitBuffer[..];
    w.bitBuffer[start + n] := bit;
    assert w.bitBuffer[..] == before[start + n := bit];
    assert w.bitBuffer[..start] == before[..start] && w.bitBuffer[start..start + n] == before[start..start + n];
  }

  lemma TailStep(a: seq<int>, from: nat, k: nat, r: nat, br: seq<Bit>)
    requires k < |a| && InTail(a, from, k, r, br) && from <= k && Abs(a[k]) != 1
    ensures if a[k] == 0 then InTail(a, from, k + 1, r + 1, br) else InTail(a, from, k + 1, r, br + [Abs(a[k]) % 2])
  {
    CorrSnoc(a, from, k);
    assert Corr(a, from, k) + [] == Corr(a, from, k);
  }

  // Where the band is while new coefficients are still to come.
  lemma TailLater(a: seq<int>, ss: nat, se: nat, k: nat, r: nat, br: seq<Bit>)
    requires |a| == 64 && 1 <= ss <= k <= se < 64
    ensures var eob := LastNew(a, ss, se + 1); var from := TailStart(ss, eob);
      && (k <= eob <==> k < from) && (k < eob ==> InTail(a, from, k + 1, r, br)) && (Abs(a[k]) == 1 ==> k <= eob)
      && (k == eob ==> Abs(a[k]) == 1 && InTail(a, from, k + 1, 0, []))
  {
  }

  lemma HeadNext(t: nat, a: seq<int>, k: nat, r: nat, br: seq<Bit>, eob: nat, done: seq<Token>)
    requires eob < |a| && k < |a| && (k <= eob && a[k] != 0 ==> r <= 15) && (Abs(a[k]) == 1 ==> k <= eob)
    ensures done + NewHead(t, a, k, r, br, eob)
      == if a[k] == 0 then done + NewHead(t, a, k + 1, r + 1, br, eob)
         else if Abs(a[k]) > 1 then done + NewHead(t, a, k + 1, r, br + [Abs(a[k]) % 2], eob)
         else done + (Marked(t, 16 * r + 1, true, Sign(a[k])) + Raws(br)) + NewHead(t, a, k + 1, 0, [], eob)
  {
    hide Marked, Raws;
    if Abs(a[k]) == 1 { Ungrouped(done, Marked(t, 16 * r + 1, true, Sign(a[k])) + Raws(br), NewHead(t, a, k + 1, 0, [], eob)); }
  }

  // One coefficient of the band.
  method RefineCoef(w: Writer, t: nat, v: nat, sign: Bit, k: nat, zeros: nat, eob: nat, from: nat, waiting: nat,
                    ghost e: nat, ghost bits: seq<Bit>, ghost log0: seq<Token>, ghost a: seq<int>, ghost ss: nat, ghost se: nat,
                    ghost done0: seq<Token>, ghost br0: seq<Bit>)
    returns (ok: bool, r: nat, start: nat, n: nat, ghost done: seq<Token>, ghost br: seq<Bit>)
    requires |a| == 64 && 1 <= ss <= k <= se < 64 && eob == LastNew(a, ss, se + 1) && v == Abs(a[k]) && (v == 1 ==> sign == Sign(a[k]))
    requires w.Valid() && t < 2 * NUM_HUFF_TBLS && waiting == |br0|
    requires Working(w, t, e, bits, log0, a, ss, se, k, zeros, from, done0, br0)
    modifies w`putBuffer, w`putBits, w`out, w`code, w`pending, w`log, w`counts, w`eobrun, w`be, w.bitBuffer
    ensures GoodEnv(w.env) && e <= MAX_EOBRUN
    ensures !ok ==> !w.gather && !Codable(w.env, HeadWith(t, e, bits, RefineBlock(t, a, ss, se).head))
    ensures ok ==> w.Valid() && n == |br| && Working(w, t, e, bits, log0, a, ss, se, k + 1, r, start, done, br)
  {
    hide Writer.Valid, Codable, GoodEnv, Eob, Raws, HeadWith, Amid, Marked, RunBefore, Corr, InTail, NewHead, LastNew;
    EnvOf(w);
    ghost var head := RefineBlock(t, a, ss, se).head;
    NoWait(w, t, e, bits, log0, done0, from, br0);
    TailLater(a, ss, se, k, if v == 0 then zeros + 1 else zeros, if v > 1 then br0 + [v % 2] else br0);
    r, start, n, done, br := zeros, from, waiting, done0, br0;
    if v == 0 {
      HeadNext(t, a, k, r, br, eob, done);
      if k > eob { TailStep(a, TailStart(ss, eob), k, r, br); }
      r := r + 1;
      return true, r, start, n, done, br;
    }
    ok, r, start, n, done, br := EmitZrlsWith(w, t, k, r, eob, start, n, e, bits, log0, a, head, done, br);
    if !ok {
      return;
    }
    HeadNext(t, a, k, r, br, eob, done);
    TailLater(a, ss, se, k, r, if v > 1 then br + [v % 2] else br);
    if v > 1 {
      if k > eob { TailStep(a, TailStart(ss, eob), k, r, br); }
      AppendBit(w, start, n, v % 2, t, e, bits, log0, done, br);
      n := n + 1;
      br := br + [v % 2];
      return;
    }
    ghost var x := Marked(t, 16 * r + 1, true, Sign(a[k])) + Raws(br);
    ghost var mark := Marked(t, 16 * r + 1, true, sign);
    if !w.gather && Codable(w.env, HeadWith(t, e, bits, head)) {
      MarkedParts(t, 16 * r + 1, true, sign);
      SymbolInside(w.env, t, e, bits, done, mark, Raws(br), NewHead(t, a, k + 1, 0, [], eob));
    }
    ok := EmitWithBits(w, t, 16 * r + 1, true, sign, start, n, e, bits, log0, done, br);
    if k < eob { TailLater(a, ss, se, k, 0, []); }
    r, start, n := 0, 0, 0;
    done, br := done + x, [];
  }

  // The first pass over the band: magnitudes at this scan's precision, and where the last new coefficient is.
  method Prepass(block: seq<int>, order: seq<nat>, ss: nat, se: nat, al: nat) returns (absvalues: seq<nat>, eob: nat)
    requires IsOrder(order) && |block| == 64 && 1 <= ss <= se < 64
    ensures var a := Zigzag(block, order, al);
      && eob == LastNew(a, ss, se + 1) && |absvalues| == 64
      && forall k :: ss <= k <= se ==> absvalues[k] == Abs(a[k])
  {
    hide Pow2;
    ghost var a := Zigzag(block, order, al);
    var values := new nat[64];
    eob := 0;
    var k := ss;
    while k <= se
      invariant ss <= k <= se + 1 && eob == LastNew(a, ss, k)
      invariant forall i :: ss <= i < k ==> values[i] == Abs(a[i])
    {
      PointParts(block[order[k]], al);
      var temp: nat := Abs(block[order[k]]) / Pow2(al);
      values[k] := temp;
      if temp == 1 {
        eob := k;
      }
      k := k + 1;
    }
    absvalues := values[..];
  }

  // What is left when the band is done: its end, if there is one, goes into the run.
  lemma BandDone(t: nat, a: seq<int>, ss: nat, se: nat, e: nat, bits: seq<Bit>, r: nat, done: seq<Token>, br: seq<Bit>)
    requires |a| == 64 && 1 <= ss <= se < 64 && e < MAX_EOBRUN
    requires RefineBlock(t, a, ss, se).head == done + NewHead(t, a, se + 1, r, br, LastNew(a, ss, se + 1))
    requires InTail(a, TailStart(ss, LastNew(a, ss, se + 1)), se + 1, r, br)
    ensures var b := RefineBlock(t, a, ss, se);
      var e1 := (if done == [] then e else 0) + if r > 0 || br != [] then 1 else 0;
      var bits1 := (if done == [] then bits else []) + br;
      && b.Ok() && b.head == done && e1 <= MAX_EOBRUN
      && RunWith(t, e, bits, b) == (HeadWith(t, e, bits, done), e1, bits1)
      && (!(r > 0 || br != []) ==> e1 == 0 && bits1 == [])
  {
    RefineBlockOk(t, a, ss, se);
    assert done + [] == done && [] + br == br;
    hide Corr, Eob, NewHead;
    NewHeadPast(t, a, se + 1, r, br, LastNew(a, ss, se + 1));
  }

  lemma NewHeadPast(t: nat, a: seq<int>, k: nat, r: nat, br: seq<Bit>, eob: nat)
    requires eob < |a| && k > eob
    ensures NewHead(t, a, k, r, br, eob) == []
  {
  }

  // A block is codable when its head and the run it completes are.
  lemma BlockCodable(env: Env, t: nat, e: nat, bits: seq<Bit>, b: AcBlock)
    requires GoodEnv(env) && e < MAX_EOBRUN
    ensures var (ts, e1, bits1) := RunWith(t, e, bits, b);
      && ts == HeadWith(t, e, bits, b.head)
      && (Codable(env, BlockTokens(t, e, bits, b)) <==> Codable(env, ts) && (Full(e1, |bits1|) ==> Codable(env, Eob(t, e1, bits1))))
  {
    hide Codable, Eob, GoodEnv;
    NothingCodable(env);
    var (ts, e1, bits1) := RunWith(t, e, bits, b);
    CodableConcat(env, ts, if Full(e1, |bits1|) then Eob(t, e1, bits1) else []);
  }

  lemma BandStart(w: Writer, t: nat, e: nat, bits: seq<Bit>, a: seq<int>, ss: nat, se: nat)
    requires |a| == 64 && 1 <= ss <= se < 64 && Saved(w, bits) && w.eobrun == e && !Full(e, |bits|)
    ensures Working(w, t, e, bits, w.log, a, ss, se, ss, 0, w.be, [], [])
  {
    hide NewHead;
    var eob := LastNew(a, ss, se + 1);
    assert w.log + [] == w.log && [] + NewHead(t, a, ss, 0, [], eob) == NewHead(t, a, ss, 0, [], eob);
  }

  lemma SignKept(block: seq<int>, order: seq<nat>, al: nat, k: nat)
    requires IsOrder(order) && |block| == 64 && k < 64
    ensures Abs(Zigzag(block, order, al)[k]) == 1 ==> Sign(Zigzag(block, order, al)[k]) == if block[order[k]] < 0 then 0 else 1
  {
    hide Pow2;
    PointParts(block[order[k]], al);
  }

  // Zeros or correction bits left over make the block end in a run.
  method EndBand(w: Writer, t: nat, r: nat, n: nat, ghost e: nat, ghost bits: seq<Bit>, ghost log0: seq<Token>,
                 ghost a: seq<int>, ghost ss: nat, ghost se: nat, ghost start: nat, ghost done: seq<Token>, ghost br: seq<Bit>)
    returns (ok: bool)
    requires |a| == 64 && 1 <= ss <= se < 64 && w.Valid() && n == |br| && t < 2 * NUM_HUFF_TBLS && e < MAX_EOBRUN
    requires Working(w, t, e, bits, log0, a, ss, se, se + 1, r, start, done, br)
    modifies w`putBuffer, w`putBits, w`out, w`code, w`pending, w`log, w`counts, w`eobrun, w`be
    ensures GoodEnv(w.env)
    ensures var b := RefineBlock(t, a, ss, se);
      && (ok <==> w.gather || Codable(w.env, BlockTokens(t, e, bits, b)))
      && (ok ==> w.Valid() && w.log == log0 + BlockTokens(t, e, bits, b)
                 && w.eobrun == NextRun(t, e, bits, b).0 && Saved(w, NextRun(t, e, bits, b).1))
  {
    hide Writer.Valid, Codable, GoodEnv, Eob, HeadWith, InTail, NewHead, LastNew, RefineBlock;
    EnvOf(w);
    ghost var b := RefineBlock(t, a, ss, se);
    BlockCodable(w.env, t, e, bits, b);
    BandDone(t, a, ss, se, e, bits, r, done, br);
    LogCodable(w, log0, HeadWith(t, e, bits, done));
    ghost var bits1 := (if done == [] then bits else []) + br;
    EmptySides(HeadWith(t, e, bits, done));
    ok := true;
    if r > 0 || n > 0 {
      w.eobrun := w.eobrun + 1;
      w.be := w.be + n;
      Together(w.bitBuffer[..], start, n, bits1, br);
      if Full(w.eobrun, w.be) {
        Ungrouped(log0, HeadWith(t, e, bits, done), Eob(t, w.eobrun, bits1));
        ok := EmitEobrun(w, t, bits1);
      }
    }
  }

  lemma Together(all: seq<Bit>, start: nat, n: nat, bits: seq<Bit>, br: seq<Bit>)
    requires start + n <= |all| && br == all[start..start + n]
    ensures all[..start] + br == all[..start + n]
  {
  }

  // encode_mcu_AC_refine for one block
  method EncodeAcRefine(w: Writer, t: nat, block: seq<int>, order: seq<nat>, ss: nat, se: nat, al: nat, ghost bits: seq<Bit>)
    returns (ok: bool)
    requires w.Valid() && Saved(w, bits) && w.eobrun < MAX_EOBRUN && !Full(w.eobrun, |bits|) && t < 2 * NUM_HUFF_TBLS
    requires IsOrder(order) && |block| == 64 && 1 <= ss <= se < 64
    modifies w`putBuffer, w`putBits, w`out, w`code, w`pending, w`log, w`counts, w`eobrun, w`be, w.bitBuffer
    ensures GoodEnv(w.env)
    ensures var b := RefineBlock(t, Zigzag(block, order, al), ss, se);
      && (ok <==> w.gather || Codable(w.env, BlockTokens(t, old(w.eobrun), bits, b)))
      && (ok ==> w.Valid() && w.log == old(w.log) + BlockTokens(t, old(w.eobrun), bits, b)
                 && w.eobrun == NextRun(t, old(w.eobrun), bits, b).0 && Saved(w, NextRun(t, old(w.eobrun), bits, b).1))
  {
    hide Writer.Valid, Codable, GoodEnv, Eob, HeadWith, Corr, InTail, NewHead, LastNew, Zigzag;
    EnvOf(w);
    ghost var a, e, log0, done, br := Zigzag(block, order, al), w.eobrun, w.log, [], [];
    ghost var b := RefineBlock(t, a, ss, se);
    BlockCodable(w.env, t, e, bits, b);
    var absvalues, eob := Prepass(block, order, ss, se, al);
    var r, n, start := 0, 0, w.be;
    var k := ss;
    BandStart(w, t, e, bits, a, ss, se);
    while k <= se
      invariant ss <= k <= se + 1 && w.Valid() && n == |br|
      invariant Working(w, t, e, bits, log0, a, ss, se, k, r, start, done, br)
    {
      SignKept(block, order, al, k);
      ok, r, start, n, done, br := RefineCoef(w, t, absvalues[k], if block[order[k]] < 0 then 0 else 1, k, r, eob, start, n,
                                              e, bits, log0, a, ss, se, done, br);
      if !ok {
        return;
      }
      k := k + 1;
    }
    ok := EndBand(w, t, r, n, e, bits, log0, a, ss, se, start, done, br);
  }
}
