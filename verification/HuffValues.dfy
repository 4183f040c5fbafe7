// Signed values with their sizes, and runs of zeros before a coefficient (sections F.1.2.1 and F.1.2.2 of ITU-T T.81).
module HuffValues {
  import opened Numbers
  import opened ArithModel
  import opened HuffTokens
  import opened HuffWriter
  import opened HuffCursor
  import opened HuffReader
  import opened HuffEobRun

  const MAX_COEF_BITS := 10

  // The low bits that go with a value: the value itself, or the complement of its magnitude when it is negative.
  function ValueBits(v: int, n: nat): (r: nat) {
    (if v < 0 then v - 1 else v) % Pow2(n)
  }

  // Figure F.12: extend the sign bit.
  function Extend(x: nat, s: nat): int
    requires s >= 1
  {
    if x < Pow2(s - 1) then x - (Pow2(s) - 1) else x
  }

  lemma ExtendInverts(v: int)
    requires v != 0
    ensures var n := NumBits(Abs(v)); n >= 1 && ValueBits(v, n) < Pow2(n) && Extend(ValueBits(v, n), n) == v
  {
    var n := NumBits(Abs(v));
    var h := Pow2(n - 1);
    assert Pow2(n) == 2 * h;
    hide Pow2, NumBits;
    if v < 0 {
      ModLow(v - 1 + 2 * h, 2 * h);
      assert (v - 1) % (2 * h) == v - 1 + 2 * h by { ModShift(v - 1, 2 * h); }
    } else {
      ModLow(v, 2 * h);
    }
  }

  lemma ModLow(x: int, d: nat)
    requires 0 <= x < d
    ensures x % d == x
  {
  }

  lemma ModShift(x: int, d: int)
    requires d > 0 && -d <= x < 0
    ensures x % d == x + d
  {
    var q := x / d;
    assert x == q * d + x % d;
    if q < -1 { MulLe(2, -q, d); MulNeg(q, d); }
  }

  function Zrls(t: nat, n: nat): (r: seq<Token>)
    ensures |r| == n
  {
    seq(n, _ => Sym(t, 0xF0))
  }

  // A nonzero value after r zeros.
  function CoefTokens(t: nat, r: nat, v: int): seq<Token>
    requires v != 0 && NumBits(Abs(v)) <= 15
  {
    var n := NumBits(Abs(v));
    Zrls(t, r / 16) + [Sym(t, 16 * (r % 16) + n), Raw(ValueBits(v, n), n)]
  }

  // ----- the coder -----

  // The size of a magnitude.
  method CountBits(v: nat) returns (nbits: nat)
    ensures nbits == NumBits(v)
  {
    nbits := 0;
    var temp: nat := v;
    while temp != 0
      invariant nbits + NumBits(temp) == NumBits(v)
      decreases temp
    {
      nbits := nbits + 1;
      temp := temp / 2;
    }
  }

  lemma CodableConcat(env: Env, a: seq<Token>, b: seq<Token>)
    requires GoodEnv(env)
    ensures Codable(env, a + b) <==> Codable(env, a) && Codable(env, b)
  {
    hide HasCode;
    if Codable(env, a + b) {
      forall i | 0 <= i < |a|
        ensures HasCode(env, a[i])
      {
        assert (a + b)[i] == a[i];
      }
      forall i | 0 <= i < |b|
        ensures HasCode(env, b[i])
      {
        assert (a + b)[|a| + i] == b[i];
      }
    }
  }

  // A Huffman symbol with value bits after it; only the symbol can lack a code.
  method EmitValue(w: Writer, t: nat, s: Byte, v: int, nbits: nat) returns (ok: bool)
    requires w.Valid() && t < 2 * NUM_HUFF_TBLS && 1 <= nbits <= 16
    modifies w`putBuffer, w`putBits, w`out, w`code, w`pending, w`log, w`counts
    ensures ok <==> w.gather || HasCode(w.env, Sym(t, s))
    ensures ok ==> w.Valid() && w.log == old(w.log) + [Sym(t, s), Raw(ValueBits(v, nbits), nbits)]
  {
    hide Writer.Valid, Pow2;
    EnvOf(w);
    ok := w.EmitSymbol(t, s);
    if ok {
      ok := w.EmitRaw(if v < 0 then v - 1 else v, nbits);
    }
  }

  // A run of more than 15 zeros needs ZRL symbols first.
  method EmitZrls(w: Writer, t: nat, run: nat) returns (ok: bool, r: nat)
    requires w.Valid() && t < 2 * NUM_HUFF_TBLS
    modifies w`putBuffer, w`putBits, w`out, w`code, w`pending, w`log, w`counts
    ensures ok <==> w.gather || run < 16 || HasCode(w.env, Sym(t, 0xF0))
    ensures ok ==> w.Valid() && r == run % 16 && w.log == old(w.log) + Zrls(t, run / 16)
  {
    hide Writer.Valid;
    EnvOf(w);
    r := run;
    ghost var n := 0;
    ok := true;
    while r > 15
      invariant w.Valid() && run == r + 16 * n && w.log == old(w.log) + Zrls(t, n) && ok
      invariant n > 0 ==> w.gather || HasCode(w.env, Sym(t, 0xF0))
      decreases r
    {
      ok := w.EmitSymbol(t, 0xF0);
      if !ok {
        return;
      }
      r := r - 16;
      n := n + 1;
    }
  }

  // A nonzero coefficient and the zeros before it.
  method EmitCoef(w: Writer, t: nat, run: nat, v: int) returns (ok: bool)
    requires w.Valid() && t < 2 * NUM_HUFF_TBLS && v != 0
    modifies w`putBuffer, w`putBits, w`out, w`code, w`pending, w`log, w`counts
    ensures GoodEnv(w.env)
    ensures ok <==> NumBits(Abs(v)) <= MAX_COEF_BITS && (w.gather || Codable(w.env, CoefTokens(t, run, v)))
    ensures ok ==> w.Valid() && w.log == old(w.log) + CoefTokens(t, run, v)
  {
    hide Writer.Valid, Pow2, NumBits, ValueBits;
    EnvOf(w);
    var r;
    NonZeroBits(v);
    if NumBits(Abs(v)) <= MAX_COEF_BITS { CoefCodable(w.env, t, run, v); }
    ok, r := EmitZrls(w, t, run);
    if !ok {
      return;
    }
    var nbits := CountBits(Abs(v));
    if nbits > MAX_COEF_BITS {
      return false;
    }
    ok := EmitValue(w, t, 16 * r + nbits, v, nbits);
    if ok {
      assert w.log == old(w.log) + (Zrls(t, run / 16) + [Sym(t, 16 * r + nbits), Raw(ValueBits(v, nbits), nbits)]);
    }
  }

  lemma NonZeroBits(v: int)
    requires v != 0
    ensures NumBits(Abs(v)) >= 1
  {
  }

  lemma CoefCodable(env: Env, t: nat, run: nat, v: int)
    requires GoodEnv(env) && v != 0 && NumBits(Abs(v)) <= MAX_COEF_BITS && t < |env|
    ensures Codable(env, CoefTokens(t, run, v)) <==>
      (run < 16 || HasCode(env, Sym(t, 0xF0))) && HasCode(env, Sym(t, 16 * (run % 16) + NumBits(Abs(v))))
  {
    hide Pow2, ValueBits, GoodEnv;
    var n := NumBits(Abs(v));
    NonZeroBits(v);
    CodableConcat(env, Zrls(t, run / 16), [Sym(t, 16 * (run % 16) + n), Raw(ValueBits(v, n), n)]);
    if run >= 16 { assert Zrls(t, run / 16)[0] == Sym(t, 0xF0); }
    var two := [Sym(t, 16 * (run % 16) + n), Raw(ValueBits(v, n), n)];
    assert two[0] == Sym(t, 16 * (run % 16) + n) && two[1] == Raw(ValueBits(v, n), n);
  }

  // ----- the decoder -----

  function ValueFrom(input: seq<Byte>, c: Cursor, s: nat): Maybe<(Cursor, int)>
    requires 1 <= s <= 16
  {
    match Bits(input, c, s)
    case Nothing => Nothing
    case Just((next, x)) => Just((next, Extend(x, s)))
  }

  // GET_BITS and HUFF_EXTEND
  method ReadValue(d: Reader, s: nat, ghost v: int, ghost env: Env, ghost goal: seq<Token>) returns (ok: bool, value: int)
    requires d.Valid() && 1 <= s <= 16 && GoodEnv(env)
    modifies d`pos, d`unreadMarker, d`getBuffer, d`bitsLeft, d`held, d`insufficientData
    ensures d.Unmarked(ok) && (ok ==> d.Valid())
    ensures old(d.InSync(env, goal)) && goal != [] && v != 0 && s == NumBits(Abs(v)) && goal[0] == Raw(ValueBits(v, s), s) ==>
      (d.avail == |d.input| ==> ok) && (ok ==> value == v && d.InSync(env, goal[1..]))
    ensures Tells(ok, d.avail == |d.input|, ValueFrom(d.input, old(d.Cur()), s), (d.Cur(), value))
  {
    hide Bits, Extend;
    hide Reader.Valid, Reader.InSync, Pow2, NumBits, ValueBits;
    if v != 0 { ExtendInverts(v); }
    var x;
    ok, x := d.ReadRaw(s, env, goal);
    value := if ok then Extend(x, s) else 0;
  }
}
