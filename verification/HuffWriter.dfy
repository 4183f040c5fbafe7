// Bit packing of the Huffman coder, with byte stuffing; in a statistics pass symbols are only counted.
module HuffWriter {
  import opened Numbers
  import opened BitStrings
  import opened ArithCode
  import opened HuffTable
  import opened HuffTokens

  // v moved m bits to the left.
  function Left(v: nat, m: nat): nat { v * Pow2(m) }

  // The pending bits are left-justified in the right 24 bits of the buffer.
  ghost predicate Holds24(buffer: nat, pending: seq<Bit>) {
    |pending| <= 24 && buffer % 0x100_0000 == Left(BitVal(pending), 24 - |pending|)
  }

  lemma Pow2At24()
    ensures Pow2(16) == 0x1_0000 && Pow2(24) == 0x100_0000
  {
    assert Pow2(8) == 0x100;
    Pow2Plus(8, 8);
    Pow2Plus(8, 16);
  }

  lemma ShiftProducts(a: nat, b: nat, m: nat, n: nat)
    requires b < Pow2(m)
    ensures (a * Pow2(m) + b) * Pow2(n) == a * Pow2(m + n) + b * Pow2(n)
    ensures b * Pow2(n) < Pow2(m + n)
  {
    Pow2Plus(m, n);
    var p, q := Pow2(m), Pow2(n);
    hide Pow2;
    MulDist(a * p, b, q);
    MulAssoc(a, p, q);
    MulLess(b, p, q);
  }

  lemma MulAssoc(a: nat, b: nat, c: nat)
    ensures a * b * c == a * (b * c)
  {
  }

  // New bits, moved into place, fill the zeros just below the pending ones.
  lemma MergeBits(buffer: nat, pending: seq<Bit>, x: nat, n: nat)
    requires Holds24(buffer, pending) && |pending| + n <= 24 && x < Pow2(n) && buffer < 0x1_0000_0000
    ensures var y := Left(x, 24 - |pending| - n);
      Holds24(y + buffer, pending + BitsOf(x, n)) && y + buffer < 0x1_0000_0000
  {
    hide Left, Pow2;
    var m := 24 - |pending| - n;
    MergedValue(pending, x, n, m);
    LowPart(buffer, Left(x, m), 0x100_0000, Left(BitVal(pending + BitsOf(x, n)), m));
  }

  lemma MergedValue(pending: seq<Bit>, x: nat, n: nat, m: nat)
    requires |pending| + n + m == 24 && x < Pow2(n)
    ensures |pending + BitsOf(x, n)| == |pending| + n
    ensures Left(BitVal(pending + BitsOf(x, n)), m) == Left(BitVal(pending), 24 - |pending|) + Left(x, m) < 0x100_0000
  {
    var all := pending + BitsOf(x, n);
    ValBound(all);
    Pow2At24();
    hide Pow2, BitVal, BitsOf;
    ValConcat(pending, BitsOf(x, n));
    ValOfBits(x, n);
    ShiftProducts(BitVal(pending), x, n, m);
    ShiftProducts(0, BitVal(all), |all|, m);
    assert n + m == 24 - |pending|;
  }

  lemma LowPart(b: nat, y: nat, d: nat, v: nat)
    requires d > 0 && v == b % d + y < d
    ensures (y + b) % d == v && (y + b) / d == b / d
    ensures d == 0x100_0000 && b < 0x1_0000_0000 ==> y + b < 0x1_0000_0000
  {
    Quotient(y + b, b / d, d, b % d + y);
  }

  // The top byte of the 24 bits is the first pending byte; shifting brings up the rest.
  lemma TakeByte(buffer: nat, pending: seq<Bit>)
    requires Holds24(buffer, pending) && |pending| >= 8
    ensures buffer / 0x1_0000 % 0x100 == BitVal(pending[..8])
    ensures Holds24(buffer * 0x100 % 0x1_0000_0000, pending[8..])
  {
    var m := |pending| - 8;
    SplitValue(pending, m);
    hide Left, Pow2, BitVal;
    BytesOfBuffer(buffer, BitVal(pending[..8]), Left(BitVal(pending[8..]), 16 - m));
  }

  lemma SplitValue(pending: seq<Bit>, m: nat)
    requires |pending| == m + 8 <= 24
    ensures Left(BitVal(pending), 16 - m) == BitVal(pending[..8]) * 0x1_0000 + Left(BitVal(pending[8..]), 16 - m)
    ensures BitVal(pending[..8]) < 0x100 && Left(BitVal(pending[8..]), 16 - m) < 0x1_0000
    ensures 0x100 * Left(BitVal(pending[8..]), 16 - m) == Left(BitVal(pending[8..]), 24 - m)
  {
    var a, b := BitVal(pending[..8]), BitVal(pending[8..]);
    assert pending == pending[..8] + pending[8..];
    ValBound(pending[..8]);
    ValBound(pending[8..]);
    assert Pow2(8) == 0x100;
    Pow2At24();
    hide Pow2, BitVal;
    ValConcat(pending[..8], pending[8..]);
    ShiftProducts(a, b, m, 16 - m);
    assert m + (16 - m) == 16;
    Pow2Plus(8, 16 - m);
    MulSwap(b, 0x100, Pow2(16 - m));
  }

  lemma MulSwap(a: nat, b: nat, c: nat)
    ensures a * (b * c) == b * (a * c)
  {
  }

  lemma BytesOfBuffer(buffer: nat, a: nat, r: nat)
    requires buffer % 0x100_0000 == a * 0x1_0000 + r && a < 0x100 && r < 0x1_0000
    ensures buffer / 0x1_0000 % 0x100 == a
    ensures buffer * 0x100 % 0x1_0000_0000 % 0x100_0000 == 0x100 * r
  {
    var h := buffer / 0x100_0000;
    Quotient(buffer, h * 0x100 + a, 0x1_0000, r);
    Quotient(h * 0x100 + a, h, 0x100, a);
    var low := a * 0x100_0000 + 0x100 * r;
    Quotient(buffer * 0x100, h, 0x1_0000_0000, low);
    Quotient(low, a, 0x100_0000, 0x100 * r);
  }

  const MAX_CORR_BITS := 1000

  // Less than a byte of ones.
  ghost predicate FillsByte(pad: seq<Bit>) { |pad| < 8 && forall i :: 0 <= i < |pad| ==> pad[i] == 1 }

  // The bytes of one segment: the bits of the tokens, then ones to fill the last byte.
  ghost predicate HuffSegment(env: Env, bytes: seq<Byte>, ts: seq<Token>)
    requires GoodEnv(env)
  {
    Codable(env, ts) &&
    exists code, pad: seq<Bit> :: bytes == Stuff(code) && FillsByte(pad) && BytesBits(code) == TokensBits(env, ts) + pad
  }

  // A statistics pass has counted the symbols of ts; an output pass counts nothing.
  ghost function Counted(counts: seq<seq<nat>>, gather: bool, ts: seq<Token>): (ok: bool)
    ensures ok ==> |counts| == 2 * NUM_HUFF_TBLS && forall t :: 0 <= t < |counts| ==> |counts[t]| == 257 && counts[t][256] == 0
  {
    && |counts| == 2 * NUM_HUFF_TBLS
    && (forall t :: 0 <= t < |counts| ==> |counts[t]| == 257 && counts[t][256] == 0)
    && forall t, s :: 0 <= t < |counts| && 0 <= s < 256 ==> counts[t][s] == if gather then Count(ts, t, s) else 0
  }

  // Raw bits are not counted.
  lemma CountedRaw(counts: seq<seq<nat>>, gather: bool, ts: seq<Token>, v: nat, n: nat)
    requires Counted(counts, gather, ts)
    ensures Counted(counts, gather, ts + [Raw(v, n)])
  {
    forall t, s | 0 <= t < |counts| && 0 <= s < 256
      ensures Count(ts + [Raw(v, n)], t, s) == Count(ts, t, s)
    {
      CountSnoc(ts, Raw(v, n), t, s);
    }
  }

  lemma CountedSym(counts: seq<seq<nat>>, ts: seq<Token>, tbl: nat, s: Byte)
    requires Counted(counts, true, ts) && tbl < |counts|
    ensures Counted(counts[tbl := counts[tbl][s := counts[tbl][s] + 1]], true, ts + [Sym(tbl, s)])
  {
    forall t, u | 0 <= t < |counts| && 0 <= u < 256
      ensures Count(ts + [Sym(tbl, s)], t, u) == Count(ts, t, u) + if (t, u) == (tbl, s) then 1 else 0
    {
      CountSnoc(ts, Sym(tbl, s), t, u);
    }
  }

  lemma NotCounted(counts: seq<seq<nat>>, ts: seq<Token>, t: Token)
    requires Counted(counts, false, ts)
    ensures Counted(counts, false, ts + [t])
  {
  }

  class Writer {
    const env: Env                 // derived tables, DC then AC
    const gather: bool             // gather_statistics
    var putBuffer: nat
    var putBits: nat
    var out: seq<Byte>             // bytes handed to the destination manager
    var counts: seq<seq<nat>>      // symbol counts, DC then AC tables
    var lastDcVal: seq<int>        // the predictors
    var eobrun: nat                // run length of EOBs
    var be: nat                    // number of buffered correction bits
    const bitBuffer: array<Bit>    // buffer for correction bits
    ghost var before: seq<Byte>    // the part of out that precedes this segment
    ghost var code: seq<Byte>      // data bytes of this segment, without stuffing
    ghost var pending: seq<Bit>    // the bits in putBuffer
    ghost var history: seq<Token>  // tokens of the segments before this one
    ghost var log: seq<Token>      // tokens of this segment

    constructor (env: Env, gather: bool, comps: nat)
      requires GoodEnv(env)
      ensures this.env == env && this.gather == gather && out == [] && |lastDcVal| == comps && history == []
      ensures AtStart() && fresh(bitBuffer)
    {
      this.env, this.gather := env, gather;
      eobrun, be, bitBuffer := 0, 0, new Bit[MAX_CORR_BITS](_ => 0);
      putBuffer, putBits, out, lastDcVal := 0, 0, [], seq(comps, _ => 0);
      counts := seq(2 * NUM_HUFF_TBLS, _ => seq(257, _ => 0));
      before, code, pending, history, log := [], [], [], [], [];
      new;
      assert BitVal([]) == 0 && [] + [] == history + log;
    }

    ghost predicate AtStart()
      reads this
    {
      Valid() && log == [] && before == out && lastDcVal == seq(|lastDcVal|, _ => 0)
      && eobrun == be == 0 && bitBuffer.Length == MAX_CORR_BITS
    }

    // Everything sent of this segment, and the bits still in the buffer.
    ghost function Bits(): seq<Bit>
      reads this`code, this`pending
    {
      BytesBits(code) + pending
    }

    ghost predicate Packing()
      reads this`putBuffer, this`putBits, this`out, this`before, this`code, this`pending
    {
      && GoodEnv(env) && putBits == |pending| && putBuffer < 0x1_0000_0000 && Holds24(putBuffer, pending)
      && out == before + Stuff(code)
    }

    // A statistics pass keeps the counts, an output pass the bits.
    ghost predicate Valid()
      reads this`putBuffer, this`putBits, this`out, this`counts
      reads this`before, this`code, this`pending, this`history, this`log
    {
      && Packing() && Counted(counts, gather, history + log) && putBits <= 7
      && (gather ==> out == before)
      && (!gather ==> Codable(env, log) && Bits() == TokensBits(env, log))
    }

    // emit_byte, with the zero that a 0xFF data byte takes after it
    method EmitData(c: Byte)
      modifies this`out, this`code
      ensures out == old(out) + Stuff([c]) && code == old(code) + [c]
    {
      out := out + [c];
      if c == 0xFF {
        out := out + [0];
      }
      code := code + [c];
      assert [c][1..] == [];
    }

    // The rest of emit_bits, for a code already masked.
    method PutBits(x: nat, size: nat)
      requires Packing() && putBits <= 7 && 1 <= size <= 16 && x < Pow2(size)
      modifies this`putBuffer, this`putBits, this`out, this`code, this`pending
      ensures Packing() && putBits <= 7 && Bits() == old(Bits()) + BitsOf(x, size)
    {
      hide Holds24, Left, Pow2, Stuff, BytesBits, BitsOf, BitVal;
      MergeBits(putBuffer, pending, x, size);
      putBits := putBits + size;
      putBuffer := Left(x, 24 - putBits) + putBuffer;
      pending := pending + BitsOf(x, size);
      assert Bits() == old(Bits()) + BitsOf(x, size);
      while putBits >= 8
        invariant Packing() && putBits <= 24 && Bits() == old(Bits()) + BitsOf(x, size)
        decreases putBits
      {
        SendByte();
      }
    }

    method SendByte()
      requires Packing() && putBits >= 8
      modifies this`putBuffer, this`putBits, this`out, this`code, this`pending
      ensures Packing() && putBits == old(putBits) - 8 && Bits() == old(Bits())
    {
      hide Holds24, Left, Pow2, Stuff, BytesBits, BitsOf, BitVal;
      TakeByte(putBuffer, pending);
      var c: Byte := putBuffer / 0x1_0000 % 0x100;
      BitsOfVal(pending[..8]);
      BytesSnoc(code, c);
      StuffConcat(code, [c]);
      assert pending == pending[..8] + pending[8..];
      EmitData(c);
      putBuffer := putBuffer * 0x100 % 0x1_0000_0000;
      putBits := putBits - 8;
      pending := pending[8..];
    }

    // emit_bits: mask off extra bits, and pack the rest unless only statistics are wanted.
    method EmitBits(codeword: int, size: nat) returns (ok: bool)
      requires Packing() && putBits <= 7 && size <= 16
      modifies this`putBuffer, this`putBits, this`out, this`code, this`pending
      ensures ok <==> size != 0
      ensures ok ==> Packing() && putBits <= 7
      ensures ok ==> if gather then unchanged(this) else Bits() == old(Bits()) + BitsOf(codeword % Pow2(size), size)
    {
      if size == 0 {
        return false;
      }
      if gather {
        return true;
      }
      hide Holds24, Left, Pow2, Stuff, BytesBits, BitsOf, BitVal;
      PutBits(codeword % Pow2(size), size);
      return true;
    }

    ghost method Note(t: Token)
      requires Packing() && putBits <= 7 && Counted(counts, gather, history + log + [t])
      requires if gather then out == before else HasCode(env, t) && Codable(env, log) && Bits() == TokensBits(env, log) + TokenBits(env, t)
      modifies this`log
      ensures Valid() && log == old(log) + [t]
    {
      hide Holds24, Stuff, BytesBits, BitsOf, BitVal, Count;
      TokensConcat(env, log, [t]);
      TokensOne(env, t);
      assert history + log + [t] == history + (log + [t]);
      log := log + [t];
    }

    // Bits that are not a Huffman code: extra bits of a value, run length or correction bits.
    method EmitRaw(v: int, n: nat) returns (ok: bool)
      requires Valid() && n <= 16
      modifies this`putBuffer, this`putBits, this`out, this`code, this`pending, this`log
      ensures ok <==> n != 0
      ensures ok ==> Valid() && log == old(log) + [Raw(v % Pow2(n), n)]
    {
      hide Holds24, Stuff, BytesBits, BitsOf, BitVal, Pow2, Counted;
      CountedRaw(counts, gather, history + log, v % Pow2(n), n);
      ok := EmitBits(v, n);
      if ok {
        Note(Raw(v % Pow2(n), n));
      }
    }

    // dc_counts[s]++, ac_counts[s]++
    method CountSymbol(tbl: nat, s: Byte)
      requires Valid() && gather && tbl < 2 * NUM_HUFF_TBLS
      modifies this`log, this`counts
      ensures Valid() && log == old(log) + [Sym(tbl, s)]
    {
      hide Holds24, Stuff, BytesBits, BitsOf, BitVal, Counted;
      CountedSym(counts, history + log, tbl, s);
      counts := counts[tbl := counts[tbl][s := counts[tbl][s] + 1]];
      Note(Sym(tbl, s));
    }

    // Bits that a statistics pass has no interest in.
    ghost method PassOver(v: nat, n: nat)
      requires Valid() && gather
      modifies this`log
      ensures Valid() && log == old(log) + [Raw(v, n)]
    {
      hide Holds24, Stuff, BytesBits, BitsOf, BitVal, Counted;
      CountedRaw(counts, gather, history + log, v, n);
      Note(Raw(v, n));
    }

    // emit_dc_symbol, emit_ac_symbol: count the symbol in a statistics pass, else send its code.
    method EmitSymbol(tbl: nat, s: Byte) returns (ok: bool)
      requires Valid() && tbl < 2 * NUM_HUFF_TBLS
      modifies this`putBuffer, this`putBits, this`out, this`code, this`pending, this`log, this`counts
      ensures ok <==> gather || HasCode(env, Sym(tbl, s))
      ensures ok ==> Valid() && log == old(log) + [Sym(tbl, s)]
    {
      hide Holds24, Stuff, BytesBits, BitsOf, BitVal, Counted;
      if gather {
        CountSymbol(tbl, s);
        return true;
      }
      var size := env[tbl].ehufsi[s];
      Masked(env[tbl], s);
      NotCounted(counts, history + log, Sym(tbl, s));
      hide Pow2;
      ok := EmitBits(env[tbl].ehufco[s], size);
      if ok {
        Note(Sym(tbl, s));
      }
    }

    // flush_bits: fill the last byte with ones and empty the buffer.
    method FlushBits()
      requires Valid() && !gather
      modifies this`putBuffer, this`putBits, this`out, this`code, this`pending
      ensures Packing() && putBits == 0 && HuffSegment(env, Stuff(code), log)
      ensures Counted(counts, gather, history + log) && Codable(env, log)
    {
      hide Holds24, Stuff, BytesBits, BitVal, Pow2, Counted, Codable, BitsOf, HuffSegment, GoodEnv;
      SevenOnes();
      ghost var bits := TokensBits(env, log);
      PutBits(0x7F, 7);
      Padded(env, code, bits, pending, BitsOf(0x7F, 7), log);
      EmptyBuffer();
      putBuffer, putBits := 0, 0;
      pending := [];
    }

    // End of a scan, any run having been sent by emit_eobrun.
    method Finish()
      requires Valid() && !gather && eobrun == be == 0
      modifies this`putBuffer, this`putBits, this`out, this`code, this`pending
      ensures old(before) <= out && HuffSegment(env, out[|old(before)|..], log)
    {
      hide HuffSegment, Stuff, Counted, Codable;
      FlushBits();
      assert out[|before|..] == Stuff(code);
    }

    // A restart, any run having been sent by emit_eobrun.
    method EmitRestart(num: nat)
      requires Valid() && num < 8 && bitBuffer.Length == MAX_CORR_BITS && eobrun == be == 0
      modifies this
      ensures AtStart() && |lastDcVal| == |old(lastDcVal)| && history == old(history + log)
      ensures gather ==> out == old(out)
      ensures !gather ==> |old(before)| + 2 <= |out| && old(before) <= out && out[|out| - 2..] == [0xFF, 0xD0 + num]
      ensures !gather ==> HuffSegment(env, out[|old(before)|..|out| - 2], old(log))
    {
      hide HuffSegment, Holds24, Counted, Codable;
      if !gather {
        FlushBits();
        ghost var sent := out;
        out := out + [0xFF, 0xD0 + num];
        assert out[|before|..|out| - 2] == Stuff(code);
      }
      EmptyBuffer();
      lastDcVal := seq(|lastDcVal|, _ => 0);
      eobrun, be := 0, 0;
      putBuffer, putBits := 0, 0;
      Restart();
    }

    ghost method Restart()
      requires GoodEnv(env) && putBuffer == putBits == 0 && Counted(counts, gather, history + log)
      modifies this`before, this`code, this`pending, this`history, this`log
      ensures Valid() && before == out && log == [] && history == old(history + log)
    {
      hide Counted, GoodEnv;
      EmptyBuffer();
      history := history + log;
      before, code, pending, log := out, [], [], [];
      assert history + log == history && [] + [] == TokensBits(env, []);
      assert out + Stuff([]) == out;
    }
  }

  lemma EmptyBuffer()
    ensures Holds24(0, [])
  {
    assert BitVal([]) == 0;
  }

  // What is left in the buffer after the flush is ones that were not needed.
  lemma SevenOnes()
    ensures 0x7F < Pow2(7) && |BitsOf(0x7F, 7)| == 7 && forall i :: 0 <= i < 7 ==> BitsOf(0x7F, 7)[i] == 1
  {
    assert BitsOf(0x7F, 7) == [1, 1, 1, 1, 1, 1, 1];
  }

  lemma Padded(env: Env, code: seq<Byte>, bits: seq<Bit>, pending: seq<Bit>, ones: seq<Bit>, ts: seq<Token>)
    requires GoodEnv(env) && Codable(env, ts) && bits == TokensBits(env, ts)
    requires BytesBits(code) + pending == bits + ones && ones == BitsOf(0x7F, 7) && |pending| <= 7
    ensures HuffSegment(env, Stuff(code), ts)
  {
    var n := |BytesBits(code)|;
    var all := bits + ones;
    assert all[..n] == BytesBits(code);
    SevenOnes();
    hide BitsOf;
    assert all[..n] == bits + all[|bits|..n];
    assert FillsByte(all[|bits|..n]);
  }

  // No code has bits for the mask to remove.
  lemma Masked(d: CDerived, s: Byte)
    requires GoodDerived(d)
    ensures d.ehufsi[s] <= 16 && (d.ehufsi[s] != 0 ==> d.ehufco[s] % Pow2(d.ehufsi[s]) == d.ehufco[s])
  {
    hide Pow2;
  }
}
