// Runs of blocks whose band ends early: how the coder saves them up and how the decoder counts them down.
module HuffEobRun {
  import opened Numbers
  import opened HuffTokens
  import opened HuffWriter

  // What one block contributes to an AC scan: tokens up to its last new coefficient, and then, unless the band
  // is complete, an end of band with correction bits.
  datatype AcBlock = AcBlock(head: seq<Token>, ends: bool, tail: seq<Bit>) {
    predicate Ok() {
      (head == [] ==> ends) && (!ends ==> tail == []) && |tail| <= 63
    }
  }

  // The places of v in binary.
  function NumBits(v: nat): (n: nat)
    ensures v < Pow2(n)
    ensures v > 0 ==> n >= 1 && Pow2(n - 1) <= v
  {
    if v == 0 then 0 else 1 + NumBits(v / 2)
  }

  const MAX_EOBRUN := 0x7FFF

  // The symbol of an EOB run of e > 0 blocks, with its extra bits.
  function EobSymbol(t: nat, e: nat): seq<Token>
    requires 0 < e <= MAX_EOBRUN
  {
    RunLengthBits(e);
    var n := NumBits(e) - 1;
    [Sym(t, 16 * n)] + if n > 0 then [Raw(e % Pow2(n), n)] else []
  }

  lemma RunLengthBits(e: nat)
    requires 0 < e <= MAX_EOBRUN
    ensures 1 <= NumBits(e) <= 15
  {
    assert Pow2(8) == 0x100;
    Pow2Plus(8, 7);
    if NumBits(e) > 15 { Pow2Monotone(15, NumBits(e) - 1); }
  }

  lemma {:induction false} Pow2Monotone(m: nat, n: nat)
    requires m <= n
    ensures Pow2(m) <= Pow2(n)
  {
    if m < n { Pow2Monotone(m, n - 1); }
  }

  // emit_eobrun
  function Eob(t: nat, e: nat, bits: seq<Bit>): seq<Token>
    requires e <= MAX_EOBRUN
  {
    if e == 0 then [] else EobSymbol(t, e) + Raws(bits)
  }

  // The run goes out before its counter, or the correction bits of one more block, could overflow.
  predicate Full(e: nat, be: nat) {
    e == MAX_EOBRUN || be > MAX_CORR_BITS - 64 + 1
  }

  // The tokens of a whole segment, from a state with nothing saved up, and with a run of e blocks.
  function Stream(t: nat, bs: seq<AcBlock>): seq<Token>
    decreases |bs|, 0
  {
    if bs == [] then []
    else bs[0].head + if bs[0].ends then FromRun(t, 1, bs[0].tail, bs[1..]) else Stream(t, bs[1..])
  }

  function FromRun(t: nat, e: nat, bits: seq<Bit>, bs: seq<AcBlock>): seq<Token>
    requires 0 < e <= MAX_EOBRUN
    decreases |bs|, 1
  {
    if Full(e, |bits|) || bs == [] || bs[0].head != [] then Eob(t, e, bits) + Stream(t, bs)
    else FromRun(t, e + 1, bits + bs[0].tail, bs[1..])
  }

  // How many of the blocks join a run of e.
  function Joining(e: nat, be: nat, bs: seq<AcBlock>): (n: nat)
    requires 0 < e <= MAX_EOBRUN
    ensures n <= |bs| && e + n <= MAX_EOBRUN
    ensures forall i :: 0 <= i < n ==> bs[i].head == []
    decreases |bs|
  {
    if Full(e, be) || bs == [] || bs[0].head != [] then 0
    else 1 + Joining(e + 1, be + |bs[0].tail|, bs[1..])
  }

  // What the decoder still has to read when n more blocks belong to the run it is in.
  function InRun(t: nat, n: nat, bs: seq<AcBlock>): seq<Token>
    requires n <= |bs|
    decreases n
  {
    if n == 0 then Stream(t, bs) else Raws(bs[0].tail) + InRun(t, n - 1, bs[1..])
  }

  // The coder sends the length of a run after its blocks, the decoder finds it before them.
  lemma {:induction false} RunAhead(t: nat, e: nat, bits: seq<Bit>, bs: seq<AcBlock>)
    requires 0 < e <= MAX_EOBRUN
    ensures var n := Joining(e, |bits|, bs);
      FromRun(t, e, bits, bs) == EobSymbol(t, e + n) + Raws(bits) + InRun(t, n, bs)
    decreases |bs|
  {
    hide Full, EobSymbol;
    if Full(e, |bits|) || bs == [] || bs[0].head != [] {
    } else {
      var n := Joining(e, |bits|, bs);
      RunAhead(t, e + 1, bits + bs[0].tail, bs[1..]);
      RawsConcat(bits, bs[0].tail);
      assert EobSymbol(t, e + n) + Raws(bits + bs[0].tail) + InRun(t, n - 1, bs[1..])
        == EobSymbol(t, e + n) + Raws(bits) + (Raws(bs[0].tail) + InRun(t, n - 1, bs[1..]));
    }
  }

  // ----- the coder's side -----

  // Between blocks fewer than MAX_CORR_BITS - 63 correction bits are saved up, and only together with a run.
  ghost predicate Saved(w: Writer, bits: seq<Bit>)
    reads w, w.bitBuffer
  {
    && w.bitBuffer.Length == MAX_CORR_BITS && w.be == |bits| <= MAX_CORR_BITS && w.bitBuffer[..w.be] == bits
    && w.eobrun <= MAX_EOBRUN && (w.eobrun == 0 ==> bits == [])
  }

  // What the coder emits for a block, and what it then has saved up.
  function RunWith(t: nat, e: nat, bits: seq<Bit>, b: AcBlock): (r: (seq<Token>, nat, seq<Bit>))
    requires e < MAX_EOBRUN
    ensures r.1 <= MAX_EOBRUN
  {
    if b.head != [] then (Eob(t, e, bits) + b.head, if b.ends then 1 else 0, b.tail) else ([], e + 1, bits + b.tail)
  }

  function BlockTokens(t: nat, e: nat, bits: seq<Bit>, b: AcBlock): seq<Token>
    requires e < MAX_EOBRUN
  {
    var (ts, e1, bits1) := RunWith(t, e, bits, b);
    ts + if Full(e1, |bits1|) then Eob(t, e1, bits1) else []
  }

  function NextRun(t: nat, e: nat, bits: seq<Bit>, b: AcBlock): (r: (nat, seq<Bit>))
    requires e < MAX_EOBRUN
    ensures r.0 < MAX_EOBRUN && !Full(r.0, |r.1|)
  {
    var (ts, e1, bits1) := RunWith(t, e, bits, b);
    if Full(e1, |bits1|) then (0, []) else (e1, bits1)
  }

  // What is still to be emitted for the blocks to come, with a run of e saved up.
  function Owed(t: nat, e: nat, bits: seq<Bit>, bs: seq<AcBlock>): seq<Token>
    requires e <= MAX_EOBRUN
  {
    if e == 0 then Stream(t, bs) else FromRun(t, e, bits, bs)
  }

  lemma StreamHead(t: nat, b: AcBlock, bs: seq<AcBlock>)
    requires b.Ok()
    ensures Stream(t, [b] + bs) == b.head + Owed(t, if b.ends then 1 else 0, b.tail, bs)
  {
    var all := [b] + bs;
    assert all[0] == b && all[1..] == bs;
  }

  lemma RunHead(t: nat, e: nat, bits: seq<Bit>, b: AcBlock, bs: seq<AcBlock>)
    requires 0 < e < MAX_EOBRUN && !Full(e, |bits|)
    ensures FromRun(t, e, bits, [b] + bs)
      == if b.head != [] then Eob(t, e, bits) + Stream(t, [b] + bs) else FromRun(t, e + 1, bits + b.tail, bs)
  {
    var all := [b] + bs;
    assert all[0] == b && all[1..] == bs;
  }

  lemma OwedHead(t: nat, e: nat, bits: seq<Bit>, b: AcBlock, bs: seq<AcBlock>)
    requires e < MAX_EOBRUN && !Full(e, |bits|) && (e == 0 ==> bits == []) && b.Ok()
    ensures var (ts, e1, bits1) := RunWith(t, e, bits, b); Owed(t, e, bits, [b] + bs) == ts + Owed(t, e1, bits1, bs)
  {
    hide Stream, FromRun, Eob, Full;
    StreamHead(t, b, bs);
    var (ts, e1, bits1) := RunWith(t, e, bits, b);
    var rest := Owed(t, e1, bits1, bs);
    if e == 0 {
      NoEob(t, bits);
      assert [] + b.tail == b.tail;
      Ungrouped([], b.head, rest);
      assert [] + b.head == b.head;
    } else {
      RunHead(t, e, bits, b, bs);
      Ungrouped(Eob(t, e, bits), b.head, rest);
      assert [] + rest == rest;
    }
  }

  lemma NoEob(t: nat, bits: seq<Bit>)
    ensures Eob(t, 0, bits) == []
  {
  }

  lemma Ungrouped(a: seq<Token>, b: seq<Token>, c: seq<Token>)
    ensures a + (b + c) == a + b + c
  {
  }

  // A run that is full is sent at once.
  lemma OwedFull(t: nat, e: nat, bits: seq<Bit>, bs: seq<AcBlock>)
    requires 0 < e <= MAX_EOBRUN && Full(e, |bits|)
    ensures Owed(t, e, bits, bs) == Eob(t, e, bits) + Stream(t, bs)
  {
  }

  lemma OwedStep(t: nat, e: nat, bits: seq<Bit>, b: AcBlock, bs: seq<AcBlock>)
    requires e < MAX_EOBRUN && !Full(e, |bits|) && (e == 0 ==> bits == []) && b.Ok()
    ensures var (e1, bits1) := NextRun(t, e, bits, b);
      Owed(t, e, bits, [b] + bs) == BlockTokens(t, e, bits, b) + Owed(t, e1, bits1, bs) && (e1 == 0 ==> bits1 == [])
  {
    hide Stream, FromRun, Eob;
    OwedHead(t, e, bits, b, bs);
    var (ts, e1, bits1) := RunWith(t, e, bits, b);
    if Full(e1, |bits1|) {
      OwedFull(t, e1, bits1, bs);
      assert ts + (Eob(t, e1, bits1) + Stream(t, bs)) == ts + Eob(t, e1, bits1) + Stream(t, bs);
    } else {
      assert ts + [] == ts;
    }
  }

  // emit_buffered_bits
  method EmitBufferedBits(w: Writer, start: nat, nbits: nat)
    requires w.Valid() && start + nbits <= w.bitBuffer.Length
    modifies w`putBuffer, w`putBits, w`out, w`code, w`pending, w`log
    ensures w.Valid() && w.log == old(w.log) + Raws(w.bitBuffer[start..start + nbits])
  {
    assert Pow2(1) == 2;
    hide Writer.Valid;
    ghost var bits := w.bitBuffer[start..start + nbits];
    var i := 0;
    while i < nbits
      invariant 0 <= i <= nbits && w.Valid() && w.log == old(w.log) + Raws(bits)[..i]
    {
      var ok := w.EmitRaw(w.bitBuffer[start + i], 1);
      i := i + 1;
    }
    assert Raws(bits)[..i] == Raws(bits);
  }

  lemma EnvOf(w: Writer)
    requires w.Valid()
    ensures GoodEnv(w.env) && |w.env| == 2 * NUM_HUFF_TBLS
  {
  }

  // The places of the run's length below its leading one.
  method RunBits(e: nat) returns (nbits: nat)
    requires e > 0
    ensures nbits == NumBits(e) - 1
  {
    nbits := 0;
    var temp: nat := e / 2;
    while temp != 0
      invariant nbits + NumBits(temp) + 1 == NumBits(e)
      decreases temp
    {
      nbits := nbits + 1;
      temp := temp / 2;
    }
  }

  // Only the symbol of a run can lack a code.
  lemma EobCodable(env: Env, t: nat, e: nat, bits: seq<Bit>)
    requires GoodEnv(env) && 0 < e <= MAX_EOBRUN && t < |env|
    ensures 1 <= NumBits(e) <= 15
    ensures Codable(env, Eob(t, e, bits)) <==> HasCode(env, Sym(t, 16 * (NumBits(e) - 1)))
    ensures Eob(t, e, bits) == [Sym(t, 16 * (NumBits(e) - 1))]
      + (if NumBits(e) > 1 then [Raw(e % Pow2(NumBits(e) - 1), NumBits(e) - 1)] else []) + Raws(bits)
  {
    hide GoodEnv, Pow2, NumBits;
    RunLengthBits(e);
    assert Eob(t, e, bits)[0] == Sym(t, 16 * (NumBits(e) - 1));
  }

  // emit_eobrun; the check of its bit count never strikes.
  method EmitEobrun(w: Writer, t: nat, ghost bits: seq<Bit>) returns (ok: bool)
    requires w.Valid() && Saved(w, bits) && t < 2 * NUM_HUFF_TBLS
    modifies w`putBuffer, w`putBits, w`out, w`code, w`pending, w`log, w`counts, w`eobrun, w`be
    ensures ok <==> w.gather || Codable(w.env, Eob(t, old(w.eobrun), bits))
    ensures ok ==> w.Valid() && w.eobrun == w.be == 0 && w.log == old(w.log) + Eob(t, old(w.eobrun), bits)
  {
    hide Writer.Valid, NumBits, Pow2;
    if w.eobrun == 0 {
      return true;
    }
    var e := w.eobrun;
    EnvOf(w);
    EobCodable(w.env, t, e, bits);
    var nbits := RunBits(e);
    ok := w.EmitSymbol(t, 16 * nbits);
    if !ok {
      return;
    }
    if nbits > 0 {
      ok := w.EmitRaw(w.eobrun, nbits);
    }
    w.eobrun := 0;
    EmitBufferedBits(w, 0, w.be);
    w.be := 0;
  }
}
