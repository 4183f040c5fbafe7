// Bit reading of the Huffman decoder: bytes unstuffed into a 32-bit buffer, bits doled out, symbols decoded.
module HuffReader {
  import opened Numbers
  import opened BitStrings
  import opened ArithCode
  import opened HuffTable
  import opened HuffLookup
  import opened HuffTokens
  import opened HuffWriter
  import opened HuffCursor

  // The unused bits are the low bits of the buffer.
  ghost predicate HoldsLow(buffer: nat, held: seq<Bit>) {
    |held| <= 32 && buffer % Pow2(|held|) == BitVal(held)
  }

  lemma ModMod(x: nat, a: nat, b: nat)
    requires a >= 1 && b >= 1
    ensures a * b >= 1 && x % (a * b) % a == x % a
  {
    MulLe(1, a, b);
    var d := a * b;
    var q, r := x / d, x % d;
    assert x == q * d + r;
    assert r == r / a * a + r % a;
    FactorOut(q, a, b, r / a);
    Quotient(x, q * b + r / a, a, r % a);
  }

  lemma FactorOut(q: nat, a: nat, b: nat, t: nat)
    ensures q * (a * b) + t * a == (q * b + t) * a
  {
  }

  lemma Pow2At32()
    ensures Pow2(32) == 0x1_0000_0000
  {
    assert Pow2(8) == 0x100;
    Pow2Plus(8, 8);
    Pow2Plus(16, 16);
  }

  // get_buffer << 8 | c
  lemma AppendByte(buffer: nat, held: seq<Bit>, c: Byte)
    requires HoldsLow(buffer, held) && |held| <= 24
    ensures HoldsLow((buffer * 0x100 + c) % 0x1_0000_0000, held + BitsOf(c, 8))
  {
    assert Pow2(8) == 0x100;
    Appended(buffer, held, c, 8, buffer * 0x100 + c);
  }

  lemma Appended(buffer: nat, held: seq<Bit>, c: nat, k: nat, y: nat)
    requires HoldsLow(buffer, held) && |held| + k <= 32 && c < Pow2(k) && y == buffer * Pow2(k) + c
    ensures HoldsLow(y % 0x1_0000_0000, held + BitsOf(c, k))
  {
    AppendedValue(buffer, held, c, k, y);
    Pow2At32();
    hide *;
    Pow2Plus(|held| + k, 32 - |held| - k);
    ModMod(y, Pow2(|held| + k), Pow2(32 - |held| - k));
    MakeLow(y % 0x1_0000_0000, held + BitsOf(c, k), |held| + k);
  }

  lemma AppendedValue(buffer: nat, held: seq<Bit>, c: nat, k: nat, y: nat)
    requires HoldsLow(buffer, held) && |held| + k <= 32 && c < Pow2(k) && y == buffer * Pow2(k) + c
    ensures y % Pow2(|held| + k) == BitVal(held + BitsOf(c, k))
  {
    ValBound(held);
    var d, p := Pow2(|held|), Pow2(k);
    hide *;
    Pow2Plus(|held|, k);
    ValConcat(held, BitsOf(c, k));
    ValOfBits(c, k);
    LowBits(buffer, d, p, c, BitVal(held));
  }

  lemma MakeLow(buffer: nat, held: seq<Bit>, m: nat)
    requires |held| == m <= 32 && buffer % Pow2(m) == BitVal(held)
    ensures HoldsLow(buffer, held)
  {
  }

  lemma LowBits(x: nat, d: nat, p: nat, c: nat, v: nat)
    requires d >= 1 && p >= 1 && c < p && x % d == v
    ensures d * p >= 1 && (x * p + c) % (d * p) == v * p + c
  {
    var q := x / d;
    assert x == q * d + v;
    MulLe(1, d, p);
    MulLe(v + 1, d, p);
    MulDist(v, 1, p);
    MulDist(q * d, v, p);
    MulAssoc3(q, d, p);
    Quotient(x * p + c, q, d * p, v * p + c);
  }

  lemma MulAssoc3(a: nat, b: nat, c: nat)
    ensures a * b * c == a * (b * c)
  {
  }

  // (get_buffer >> (bits_left - n)) & BIT_MASK(n)
  lemma TakeBits(buffer: nat, held: seq<Bit>, n: nat)
    requires HoldsLow(buffer, held) && n <= |held|
    ensures buffer / Pow2(|held| - n) % Pow2(n) == BitVal(held[..n])
    ensures HoldsLow(buffer, held[n..])
  {
    var m, v := |held|, BitVal(held);
    var d, p, h := Pow2(m - n), Pow2(n), BitVal(held[..n]);
    ValTake(held, n);
    ValBound(held[..n]);
    ValBound(held[n..]);
    Pow2Plus(m - n, n);
    var w := BitVal(held[n..]);
    assert buffer % Pow2(m) == v;
    hide *;
    HighBits(buffer, d, p, v, h, w);
    MakeLow(buffer, held[n..], m - n);
  }

  lemma HighBits(x: nat, d: nat, p: nat, v: nat, h: nat, w: nat)
    requires d >= 1 && p >= 1 && d * p >= 1 && x % (d * p) == v && h == v / d && w == v % d && h < p
    ensures x / d % p == h && x % d == w
  {
    var q := x / (d * p);
    assert x == q * (d * p) + v;
    assert v == h * d + w;
    FactorOut(q, d, p, h);
    Quotient(x, q * p + h, d, w);
    Quotient(q * p + h, q, p, h);
  }

  // ----- the bit-serial search -----

  // all begins with the code of symbol p, and the first l bits of it have been read.
  ghost predicate Begun(bits: seq<Byte>, all: seq<Bit>, p: nat, l: nat, code: nat)
    requires |bits| == 17
  {
    && p < Total(bits, 16) && l <= Len(bits, p) <= |all|
    && BitVal(all[..Len(bits, p)]) == Code(bits, p) && code == BitVal(all[..l])
  }

  lemma FirstBits(bits: seq<Byte>, h0: seq<Bit>, h1: seq<Bit>, l: nat)
    requires |bits| == 17 && h0 <= h1 && 1 <= l <= 16 && l - 1 <= |h0| && l <= |h1| && Above(bits, h0, l - 1)
    ensures BitVal(h1[..l]) >= 2 * Kraft(bits, l - 1)
  {
    assert h1[..l - 1] == h0[..l - 1];
    AboveNext(bits, h1, l);
  }

  lemma Pow2Seventeen()
    ensures Pow2(17) == 0x20000
  {
    Pow2First();
    Pow2Plus(8, 8);
    Pow2Plus(16, 1);
  }

  lemma Sentinel(bits: seq<Byte>)
    requires |bits| == 17
    ensures MaxCode(bits, 17) == 0xFFFFF
  {
  }

  lemma NotAbove(bits: seq<Byte>, all: seq<Bit>, p: nat, code: nat)
    requires GoodCounts(bits) && p < Total(bits, 16) && Begun(bits, all, p, Len(bits, p), code)
    ensures code <= MaxCode(bits, Len(bits, p))
  {
    CodeFits(bits, p);
  }

  // A value above all codes of its length is not the whole code yet.
  lemma SearchGoesOn(bits: seq<Byte>, code: nat, l: nat)
    requires GoodCounts(bits) && 1 <= l <= 17 && code < Pow2(l) && code > MaxCode(bits, l)
    ensures l <= 16
    ensures forall all, p :: Begun(bits, all, p, l, code) ==> l < Len(bits, p)
  {
    hide Kraft, Total, Pow2, MaxCode;
    if l == 17 { Pow2Seventeen(); }
    Sentinel(bits);
    forall all, p | Begun(bits, all, p, l, code)
      ensures l < Len(bits, p)
    {
      if l == Len(bits, p) { NotAbove(bits, all, p, code); }
    }
  }

  lemma SearchStops(bits: seq<Byte>, code: nat, l: nat, all: seq<Bit>, p: nat)
    requires GoodCounts(bits) && 1 <= l <= 16 && code <= MaxCode(bits, l) && Begun(bits, all, p, l, code)
    ensures l == Len(bits, p) && code + ValOffset(bits, l) == p
  {
    if l < Len(bits, p) { CodeAbove(bits, p, all, l); }
  }

  lemma Grown(bits: seq<Byte>, code: nat, l: nat, b: nat, next: nat)
    requires GoodCounts(bits) && 1 <= l <= 16 && code < Pow2(l) && b < Pow2(1) && code > MaxCode(bits, l)
    requires code >= 2 * Kraft(bits, l - 1) && next == 2 * code + b
    ensures next < Pow2(l + 1) && next >= 2 * Kraft(bits, l)
  {
    assert Pow2(1) == 2;
    hide Kraft, MaxCode, GoodCounts;
    PassNext(bits, code, l, b);
    Double(code, l, b);
  }

  lemma OneMore(bits: seq<Byte>, all: seq<Bit>, p: nat, l: nat, code: nat, b: nat, next: nat)
    requires |bits| == 17 && Begun(bits, all, p, l, code) && l < Len(bits, p) && b == BitVal(all[l..][..1]) && next == 2 * code + b
    ensures Begun(bits, all, p, l + 1, next)
  {
    assert all[l..][..1] == [] + [all[l]];
    ValSnoc([], all[l]);
    assert all[..l + 1] == all[..l] + [all[l]];
    ValSnoc(all[..l], all[l]);
  }

  // The bits in the buffer, and those of the data bytes up to the marker.
  ghost function BitsAhead(input: seq<Byte>, c: Cursor): seq<Bit>
    requires c.pos <= |input|
  {
    BitsOf(c.buffer % Pow2(c.left), c.left) + BytesBits(if c.marker != 0 then [] else Unstuff(input[c.pos..]))
  }

  class Reader {
    const input: seq<Byte>        // all the bytes the data source will ever have
    var avail: nat                // how many of them have arrived
    var arrivals: seq<nat>        // how many more come with each suspension; after that, all
    var pos: nat                  // how many have been taken
    var unreadMarker: Byte        // 0 while no marker has been met
    var getBuffer: nat
    var bitsLeft: nat
    var insufficientData: bool    // set when zero bits had to be made up
    var lastDcVal: seq<int>       // the predictors
    var eobrun: nat               // remaining EOBs in the run
    ghost var held: seq<Bit>      // the bits in getBuffer
    ghost var pad: seq<Bit>       // the ones that fill the last byte of the segment
    ghost var landing: (Byte, seq<Byte>) // the marker that ends the segment, and what follows it

    constructor (input: seq<Byte>, arrivals: seq<nat>, comps: nat)
      ensures this.input == input && this.arrivals == arrivals && pos == avail == 0 && |lastDcVal| == comps
      ensures AtStart()
    {
      this.input, this.avail, this.arrivals := input, 0, arrivals;
      pos, unreadMarker, getBuffer, bitsLeft, insufficientData, eobrun := 0, 0, 0, 0, false, 0;
      lastDcVal := seq(comps, _ => 0);
      held, pad := [], [];
      landing := if Ends(input) then MarkerAt(input) else (0, []);
      new;
      assert input[0..] == input;
    }

    ghost function AtStart(): (yes: bool)
      reads this
      ensures yes ==> Valid()
    {
      && Valid() && bitsLeft == 0 && unreadMarker == 0 && !insufficientData && eobrun == 0
      && lastDcVal == seq(|lastDcVal|, _ => 0)
      && (Ends(input[pos..]) ==> landing == MarkerAt(input[pos..]))
    }

    ghost predicate Valid()
      reads this`pos, this`avail, this`bitsLeft, this`held, this`getBuffer
      ensures Valid() ==> pos <= avail <= |input|
    {
      pos <= avail <= |input| && bitsLeft == |held| && HoldsLow(getBuffer, held)
    }

    // The working state, but for the predictors and the run of EOBs.
    ghost function Cur(): Cursor
      reads this`pos, this`unreadMarker, this`getBuffer, this`bitsLeft, this`insufficientData
    {
      Cursor(pos, unreadMarker, getBuffer, bitsLeft, insufficientData)
    }

    // Data bytes still to come from the source.
    ghost function Coming(): seq<Byte>
      requires pos <= |input|
      reads this`pos, this`unreadMarker
    {
      if unreadMarker != 0 then [] else Unstuff(input[pos..])
    }

    // Reading can only be suspended while no marker has been met, and up to then no bits have been made up.
    twostate predicate Unmarked(ok: bool)
      reads this`unreadMarker, this`insufficientData
    {
      && (!ok ==> unreadMarker == 0)
      && (unreadMarker == 0 ==> old(unreadMarker) == 0 && insufficientData == old(insufficientData))
    }

    // All the bits still to be read.
    ghost function Remaining(): seq<Bit>
      requires pos <= |input|
      reads this`pos, this`unreadMarker, this`held
    {
      held + BytesBits(Coming())
    }

    // They depend on nothing but the working state.
    lemma RemainingIs()
      requires Valid()
      ensures Remaining() == BitsAhead(input, Cur())
    {
      hide BytesBits, Unstuff, BitsOf;
      BitsOfVal(held);
      assert getBuffer % Pow2(bitsLeft) == BitVal(held);
    }

    ghost predicate MarkerAhead()
      requires pos <= |input|
      reads this`pos, this`unreadMarker, this`landing
    {
      if unreadMarker != 0 then landing == (unreadMarker, input[pos..])
      else Ends(input[pos..]) && landing == MarkerAt(input[pos..])
    }

    // data is a stuffed zero and the marker still lies ahead, or data is its code.
    ghost predicate Reached(mark: (Byte, seq<Byte>), data: Byte)
      requires pos <= |input|
      reads this
    {
      if data == 0 then Ends(input[pos..]) && MarkerAt(input[pos..]) == mark else mark == (data, input[pos..])
    }

    lemma Advance(p: nat)
      requires p < |input|
      ensures input[p..] != [] && input[p..][0] == input[p] && input[p..][1..] == input[p + 1..]
    {
    }

    // Fill bytes in front of a marker are skipped.
    method SkipFill() returns (ok: bool, data: Byte)
      requires pos <= avail <= |input|
      modifies this`pos
      ensures old(pos) <= pos <= avail
      ensures ok ==> data != 0xFF && pos > old(pos)
      ensures ok ==> AfterFF(old(input[pos..])) == if data == 0 then [0xFF] + Unstuff(input[pos..]) else []
      ensures EndsAfterFF(old(input[pos..])) ==>
        (avail == |input| ==> ok) && (ok ==> Reached(MarkerAfterFF(old(input[pos..])), data))
      ensures Tells(ok, avail == |input|, PastFill(input, old(pos)), (pos, data))
    {
      ghost var start := input[pos..];
      data := 0xFF;
      while data == 0xFF
        invariant old(pos) <= pos <= avail && (data != 0xFF ==> pos > old(pos))
        invariant PastFill(input, old(pos)) == if data == 0xFF then PastFill(input, pos) else Just((pos, data))
        invariant data == 0xFF ==> AfterFF(start) == AfterFF(input[pos..])
        invariant data != 0xFF ==> AfterFF(start) == if data == 0 then [0xFF] + Unstuff(input[pos..]) else []
        invariant EndsAfterFF(start) && data == 0xFF ==>
          EndsAfterFF(input[pos..]) && MarkerAfterFF(input[pos..]) == MarkerAfterFF(start)
        invariant EndsAfterFF(start) && data != 0xFF ==> Reached(MarkerAfterFF(start), data)
        decreases avail - pos
      {
        if pos == avail {
          return false, 0;
        }
        Advance(pos);
        data := input[pos];
        pos := pos + 1;
      }
      return true, data;
    }

    // The next data byte, or the marker in its place; fails when the source runs dry.
    method GetData() returns (ok: bool, data: Byte)
      requires pos <= avail <= |input| && unreadMarker == 0
      modifies this`pos, this`unreadMarker
      ensures old(pos) <= pos <= avail && (ok ==> old(pos) < pos) && (!ok ==> unreadMarker == 0)
      ensures ok ==> old(Coming()) == if unreadMarker == 0 then [data] + Coming() else []
      ensures ok && unreadMarker != 0 ==> unreadMarker == data
      ensures old(MarkerAhead()) ==> (avail == |input| ==> ok) && (ok ==> MarkerAhead())
      ensures Tells(ok, avail == |input|, NextData(input, old(pos)), Data(pos, data, unreadMarker != 0))
    {
      if pos == avail {
        return false, 0;
      }
      Advance(pos);
      data := input[pos];
      pos := pos + 1;
      if data == 0xFF {
        ok, data := SkipFill();
        if !ok {
          return false, 0;
        }
        if data == 0 {
          data := 0xFF;
        } else {
          unreadMarker := data;
        }
      }
      return true, data;
    }

    // The byte is loaded unless a marker stands in its place.
    method LoadByte() returns (ok: bool)
      requires Valid() && unreadMarker == 0 && bitsLeft < MIN_GET_BITS
      modifies this`pos, this`unreadMarker, this`getBuffer, this`bitsLeft, this`held
      ensures !ok ==> unreadMarker == 0
      ensures ok ==> Valid() && Remaining() == old(Remaining()) && pos > old(pos) && old(held) <= held
      ensures old(MarkerAhead()) ==> (avail == |input| ==> ok) && (ok ==> MarkerAhead())
      ensures if ok then Load(input, old(Cur())) == Load(input, Cur()) else avail == |input| ==> Load(input, old(Cur())) == Nothing
    {
      hide HoldsLow, BytesBits, BitsOf, Unstuff, AfterFF, NextData, Load;
      LoadNext(input, Cur());
      var c;
      ok, c := GetData();
      if !ok {
        return false;
      }
      if unreadMarker == 0 {
        BytesCons(c, Coming());
        AppendByte(getBuffer, held, c);
        getBuffer := (getBuffer * 0x100 + c) % 0x1_0000_0000;
        bitsLeft := bitsLeft + 8;
        held := held + BitsOf(c, 8);
      }
    }

    // The loading loop of jpeg_fill_bit_buffer.
    method LoadBytes() returns (ok: bool)
      requires Valid() && unreadMarker == 0
      modifies this`pos, this`unreadMarker, this`getBuffer, this`bitsLeft, this`held
      ensures !ok ==> unreadMarker == 0
      ensures ok ==> Valid() && Remaining() == old(Remaining()) && old(held) <= held
      ensures ok ==> bitsLeft >= MIN_GET_BITS || unreadMarker != 0
      ensures old(MarkerAhead()) ==> (avail == |input| ==> ok) && (ok ==> MarkerAhead())
      ensures Tells(ok, avail == |input|, Load(input, old(Cur())), Cur())
    {
      hide HoldsLow, BytesBits, Unstuff;
      ok := true;
      while bitsLeft < MIN_GET_BITS && unreadMarker == 0
        invariant Valid() && Remaining() == old(Remaining()) && ok && old(held) <= held
        invariant old(MarkerAhead()) ==> MarkerAhead()
        invariant Load(input, old(Cur())) == Load(input, Cur())
        decreases avail - pos
      {
        ok := LoadByte();
        if !ok {
          return;
        }
      }
    }

    // jpeg_fill_bit_buffer: at least nbits bits, made up of zeros only if the marker comes too early.
    method FillBitBuffer(nbits: nat) returns (ok: bool)
      requires Valid() && nbits <= MIN_GET_BITS
      modifies this`pos, this`unreadMarker, this`getBuffer, this`bitsLeft, this`held, this`insufficientData
      ensures Unmarked(ok)
      ensures ok ==> old(held) <= held
      ensures ok ==> Valid() && bitsLeft >= nbits && (bitsLeft >= MIN_GET_BITS || unreadMarker != 0)
      ensures ok && |old(Remaining())| >= nbits ==> Remaining() == old(Remaining()) && insufficientData == old(insufficientData)
      ensures old(MarkerAhead()) ==> (avail == |input| ==> ok) && (ok ==> MarkerAhead())
      ensures Tells(ok, avail == |input|, Fill(input, old(Cur()), nbits), Cur())
    {
      hide HoldsLow, BytesBits, BitsOf, Unstuff;
      ok := true;
      if unreadMarker == 0 {
        ok := LoadBytes();
        if !ok {
          return false;
        }
      }
      BytesNone();
      if nbits > bitsLeft {
        insufficientData := true;
        ghost var k := MIN_GET_BITS - bitsLeft;
        Appended(getBuffer, held, 0, k, getBuffer * Pow2(k));
        getBuffer := getBuffer * Pow2(MIN_GET_BITS - bitsLeft) % 0x1_0000_0000;
        held := held + BitsOf(0, k);
        bitsLeft := MIN_GET_BITS;
      }
    }

    // CHECK_BIT_BUFFER
    method NeedBits(n: nat) returns (ok: bool)
      requires Valid() && n <= MIN_GET_BITS
      modifies this`pos, this`unreadMarker, this`getBuffer, this`bitsLeft, this`held, this`insufficientData
      ensures Unmarked(ok)
      ensures ok ==> Valid() && bitsLeft >= n && old(held) <= held
      ensures old(MarkerAhead()) ==> (avail == |input| ==> ok) && (ok ==> MarkerAhead())
      ensures ok && |old(Remaining())| >= n ==> Remaining() == old(Remaining()) && insufficientData == old(insufficientData)
      ensures Tells(ok, avail == |input|, Need(input, old(Cur()), n), Cur())
    {
      ok := true;
      if bitsLeft < n {
        ok := FillBitBuffer(n);
      }
    }

    // GET_BITS
    method TakeHeld(n: nat) returns (v: nat)
      requires Valid() && n <= bitsLeft
      modifies this`bitsLeft, this`held
      ensures Valid() && v == BitVal(old(held)[..n]) < Pow2(n) && held == old(held)[n..]
      ensures Remaining() == old(Remaining())[n..] && old(Remaining())[..n] == old(held)[..n]
      ensures v == Peek(old(Cur()), n) && Cur() == Drop(old(Cur()), n)
    {
      hide HoldsLow, BitVal, Pow2;
      ValBound(held[..n]);
      v := PeekBits(n);
      DropBits(n);
    }

    method GetBits(n: nat) returns (ok: bool, v: nat)
      requires Valid() && n <= 16
      modifies this`pos, this`unreadMarker, this`getBuffer, this`bitsLeft, this`held, this`insufficientData
      ensures Unmarked(ok)
      ensures ok ==> Valid() && v < Pow2(n)
      ensures old(MarkerAhead()) ==> (avail == |input| ==> ok) && (ok ==> MarkerAhead())
      ensures ok && |old(Remaining())| >= n ==>
        v == BitVal(old(Remaining())[..n]) && Remaining() == old(Remaining())[n..] && insufficientData == old(insufficientData)
      ensures Tells(ok, avail == |input|, Bits(input, old(Cur()), n), (Cur(), v))
    {
      hide HoldsLow, BytesBits, Unstuff, BitVal, Need, Peek, Drop, Pow2;
      v := 0;
      ok := NeedBits(n);
      if ok {
        v := TakeHeld(n);
      }
    }

    // The bits to come begin with the code of symbol p.
    ghost predicate NextIs(tbl: JHuffTbl, p: nat)
      requires tbl.Shaped() && pos <= |input|
      reads this
    {
      && p < Total(tbl.bits, 16) && Len(tbl.bits, p) <= |Remaining()|
      && BitVal(Remaining()[..Len(tbl.bits, p)]) == Code(tbl.bits, p)
    }

    // The search for symbol p has taken l bits, which are worth code.
    ghost predicate Searching(bits: seq<Byte>, all: seq<Bit>, p: nat, l: nat, code: nat)
      requires |bits| == 17 && pos <= |input|
      reads this
    {
      Begun(bits, all, p, l, code) && l <= |all| && Remaining() == all[l..]
    }

    // One round of the loop in jpeg_huff_decode.
    method SearchStep(tbl: JHuffTbl, code: nat, l: nat, ghost all: seq<Bit>, ghost p: nat) returns (ok: bool, next: nat)
      requires Valid() && tbl.Shaped() && GoodCounts(tbl.bits) && 1 <= l <= 17 && code < Pow2(l)
      requires code > MaxCode(tbl.bits, l) && code >= 2 * Kraft(tbl.bits, l - 1)
      modifies this`pos, this`unreadMarker, this`getBuffer, this`bitsLeft, this`held, this`insufficientData
      ensures Unmarked(ok)
      ensures l <= 16
      ensures ok ==> Valid() && next < Pow2(l + 1) && next >= 2 * Kraft(tbl.bits, l)
      ensures old(MarkerAhead()) ==> (avail == |input| ==> ok) && (ok ==> MarkerAhead())
      ensures ok && old(Searching(tbl.bits, all, p, l, code)) ==>
        Searching(tbl.bits, all, p, l + 1, next) && insufficientData == old(insufficientData)
      ensures Tells(ok, avail == |input|, Onward(input, old(Cur()), code), (Cur(), next))
    {
      hide HoldsLow, BitVal, Code, Len, Total, Kraft, Pow2, Begun, MaxCode, Coming, GoodCounts, MarkerAhead, Need, Peek, Drop;
      ghost var sync := Searching(tbl.bits, all, p, l, code);
      SearchGoesOn(tbl.bits, code, l);
      if sync { Fits(tbl.bits, all, p, l, code); }
      next := 0;
      ok := NeedBits(1);
      if !ok {
        return;
      }
      var b := TakeHeld(1);
      next := code * 2 + b;
      Grown(tbl.bits, code, l, b, next);
      if sync {
        OneMore(tbl.bits, all, p, l, code, b, next);
        assert all[l..][1..] == all[l + 1..];
      }
    }

    // The bits a code is known to have at least.
    method FirstBitsOf(tbl: JHuffTbl, l: nat, ghost all: seq<Bit>, ghost p: nat) returns (ok: bool, code: nat)
      requires Valid() && tbl.Shaped() && 1 <= l <= 9 && l - 1 <= bitsLeft && Above(tbl.bits, held, l - 1)
      modifies this`pos, this`unreadMarker, this`getBuffer, this`bitsLeft, this`held, this`insufficientData
      ensures Unmarked(ok)
      ensures ok ==> Valid() && code < Pow2(l) && code >= 2 * Kraft(tbl.bits, l - 1)
      ensures old(MarkerAhead()) ==> (avail == |input| ==> ok) && (ok ==> MarkerAhead())
      ensures ok && all == old(Remaining()) && old(NextIs(tbl, p)) && l <= Len(tbl.bits, p) ==>
        Searching(tbl.bits, all, p, l, code) && insufficientData == old(insufficientData)
      ensures Tells(ok, avail == |input|, Bits(input, old(Cur()), l), (Cur(), code))
    {
      hide HoldsLow, BitVal, Code, Len, Total, Kraft, Pow2, Begun, Coming, MarkerAhead, Need, Peek, Drop, Above;
      ghost var sync := all == Remaining() && NextIs(tbl, p) && l <= Len(tbl.bits, p);
      code := 0;
      ok := NeedBits(l);
      if !ok {
        return;
      }
      FirstBits(tbl.bits, old(held), held, l);
      code := TakeHeld(l);
      if sync { BegunFirst(tbl.bits, all, p, l, code); }
    }

    // jpeg_huff_decode; the code is known to have at least minBits bits.
    method SlowDecode(tbl: JHuffTbl, d: DDerived, minBits: nat, ghost p: nat) returns (ok: bool, sym: Byte)
      requires Valid() && tbl.Shaped() && GoodCounts(tbl.bits) && DerivedD(tbl, d)
      requires 1 <= minBits <= 9 && minBits - 1 <= bitsLeft && Above(tbl.bits, held, minBits - 1)
      modifies this`pos, this`unreadMarker, this`getBuffer, this`bitsLeft, this`held, this`insufficientData
      ensures Unmarked(ok)
      ensures ok ==> Valid() && Known(tbl, sym)
      ensures old(MarkerAhead()) ==> (avail == |input| ==> ok) && (ok ==> MarkerAhead())
      ensures ok && old(NextIs(tbl, p)) && minBits <= Len(tbl.bits, p) ==>
        sym == tbl.huffval[p] && Remaining() == old(Remaining())[Len(tbl.bits, p)..] && insufficientData == old(insufficientData)
      ensures Tells(ok, avail == |input|, Slow(input, tbl, d, old(Cur()), minBits), (Cur(), sym))
    {
      hide HoldsLow, BitVal, Code, Len, Total, Kraft, Pow2, Begun, MaxCode, ValOffset, Coming, LookReady, GoodCounts, MarkerAhead;
      hide Search, Bits, Onward, Above;
      sym := 0;
      ghost var all := Remaining();
      ghost var sync := NextIs(tbl, p) && minBits <= Len(tbl.bits, p);
      var l := minBits;
      var code;
      ok, code := FirstBitsOf(tbl, l, all, p);
      if !ok {
        return;
      }
      ghost var whole := Search(input, tbl, d, Cur(), l, code);
      while code > d.maxcode[l]
        invariant Valid() && 1 <= l <= 17 && code < Pow2(l) && code >= 2 * Kraft(tbl.bits, l - 1) && Unmarked(true)
        invariant old(MarkerAhead()) ==> MarkerAhead()
        invariant sync ==> Searching(tbl.bits, all, p, l, code) && insufficientData == old(insufficientData)
        invariant Search(input, tbl, d, Cur(), l, code) == whole
        decreases 18 - l
      {
        SearchOn(input, tbl, d, Cur(), l, code);
        ok, code := SearchStep(tbl, code, l, all, p);
        if !ok {
          return;
        }
        l := l + 1;
      }
      if sync { Fits(tbl.bits, all, p, l, code); }
      SearchEnds(input, tbl, d, Cur(), l, code);
      if l > 16 {
        return true, 0;
      }
      StopIndex(tbl.bits, code, l);
      if sync { SearchStops(tbl.bits, code, l, all, p); }
      sym := tbl.huffval[code + d.valoffset[l]];
    }

    // HUFF_DECODE: the lookahead table when 8 bits are at hand, the bit-serial search otherwise.
    method HuffDecode(tbl: JHuffTbl, d: DDerived, ghost p: nat) returns (ok: bool, sym: Byte)
      requires Valid() && tbl.Shaped() && GoodCounts(tbl.bits) && DerivedD(tbl, d)
      modifies this`pos, this`unreadMarker, this`getBuffer, this`bitsLeft, this`held, this`insufficientData
      ensures Unmarked(ok)
      ensures ok ==> Valid() && Known(tbl, sym)
      ensures old(MarkerAhead()) ==> (avail == |input| ==> ok) && (ok ==> MarkerAhead())
      ensures ok && old(NextIs(tbl, p)) ==>
        sym == tbl.huffval[p] && Remaining() == old(Remaining())[Len(tbl.bits, p)..] && insufficientData == old(insufficientData)
      ensures Tells(ok, avail == |input|, Symbol(input, tbl, d, old(Cur())), (Cur(), sym))
    {
      assert BitVal([]) == 0;
      hide Slow, Fast, Fill;
      hide HoldsLow, BitVal, Code, Len, Total, Kraft, Pow2, Coming, LookReady, SerialReady, GoodCounts, MarkerAhead;
      sym := 0;
      ok := true;
      if bitsLeft < HUFF_LOOKAHEAD {
        ok := FillBitBuffer(0);
        if !ok {
          return;
        }
      }
      if bitsLeft < HUFF_LOOKAHEAD {
        NothingAbove(tbl.bits, held);
        ok, sym := SlowDecode(tbl, d, 1, p);
      } else {
        ok, sym := FastDecode(tbl, d, p);
      }
    }

    method FastDecode(tbl: JHuffTbl, d: DDerived, ghost p: nat) returns (ok: bool, sym: Byte)
      requires Valid() && tbl.Shaped() && GoodCounts(tbl.bits) && DerivedD(tbl, d) && bitsLeft >= HUFF_LOOKAHEAD
      modifies this`pos, this`unreadMarker, this`getBuffer, this`bitsLeft, this`held, this`insufficientData
      ensures Unmarked(ok)
      ensures ok ==> Valid() && Known(tbl, sym)
      ensures old(MarkerAhead()) ==> (avail == |input| ==> ok) && (ok ==> MarkerAhead())
      ensures ok && old(NextIs(tbl, p)) ==>
        sym == tbl.huffval[p] && Remaining() == old(Remaining())[Len(tbl.bits, p)..] && insufficientData == old(insufficientData)
      ensures Tells(ok, avail == |input|, Fast(input, tbl, d, old(Cur())), (Cur(), sym))
    {
      hide Slow, Peek, Drop;
      hide HoldsLow, BitVal, Code, Len, Total, Kraft, Pow2, Coming, LookReady, SerialReady, GoodCounts, Above, DerivedD;
      ghost var next, all := held[..HUFF_LOOKAHEAD], Remaining();
      NoEntryAbove(tbl, d, next);
      EntryInTable(tbl, d);
      if NextIs(tbl, p) { EntryFor(tbl, d, all, next, p); }
      var look := PeekBits(HUFF_LOOKAHEAD);
      var nb := d.lookNbits[look];
      if nb != 0 {
        ok := true;
        DropBits(nb);
        sym := d.lookSym[look];
      } else {
        AboveHeld(tbl.bits, held, next);
        ok, sym := SlowDecode(tbl, d, HUFF_LOOKAHEAD + 1, p);
      }
    }

    // PEEK_BITS
    method PeekBits(n: nat) returns (v: nat)
      requires Valid() && n <= bitsLeft
      ensures v == BitVal(held[..n]) == Peek(Cur(), n)
    {
      hide HoldsLow, BitVal;
      TakeBits(getBuffer, held, n);
      v := getBuffer / Pow2(bitsLeft - n) % Pow2(n);
    }

    // DROP_BITS
    method DropBits(n: nat)
      requires Valid() && n <= bitsLeft
      modifies this`bitsLeft, this`held
      ensures Valid() && held == old(held)[n..] && Remaining() == old(Remaining())[n..] && old(Remaining())[..n] == old(held)[..n]
      ensures Cur() == Drop(old(Cur()), n)
    {
      hide HoldsLow, BytesBits, Unstuff, BitVal;
      TakeBits(getBuffer, held, n);
      bitsLeft := bitsLeft - n;
      held := held[n..];
    }

    // The bits to come are exactly those of the tokens, and the padding of the last byte.
    ghost predicate InSync(env: Env, goal: seq<Token>)
      requires GoodEnv(env) && pos <= |input|
      reads this`pos, this`unreadMarker, this`held, this`pad, this`landing, this`insufficientData
    {
      && Codable(env, goal) && Remaining() == TokensBits(env, goal) + pad && |pad| < 8
      && MarkerAhead() && !insufficientData
    }

    // Raw bits.
    method ReadRaw(n: nat, ghost env: Env, ghost goal: seq<Token>) returns (ok: bool, v: nat)
      requires Valid() && n <= 16 && GoodEnv(env)
      modifies this`pos, this`unreadMarker, this`getBuffer, this`bitsLeft, this`held, this`insufficientData
      ensures Unmarked(ok)
      ensures ok ==> Valid() && v < Pow2(n)
      ensures old(InSync(env, goal)) && goal != [] && goal[0].Raw? && goal[0].n == n && goal[0].v < Pow2(n) ==>
        (avail == |input| ==> ok) && (ok ==> v == goal[0].v && InSync(env, goal[1..]))
      ensures Tells(ok, avail == |input|, Bits(input, old(Cur()), n), (Cur(), v))
    {
      hide Bits;
      hide HoldsLow, BitVal, BitsOf, Pow2, Coming, MarkerAhead, GoodDerived;
      ghost var sync := InSync(env, goal) && goal != [] && goal[0].Raw? && goal[0].n == n && goal[0].v < Pow2(n);
      if sync { FirstToken(env, goal, Remaining(), pad); ValOfBits(goal[0].v, n); }
      ok, v := GetBits(n);
    }

    // A symbol of table t, of which tbl and d are the decoder's copies.
    method ReadSymbol(t: nat, tbl: JHuffTbl, d: DDerived, ghost env: Env, ghost goal: seq<Token>) returns (ok: bool, s: Byte)
      requires Valid() && GoodEnv(env) && t < |env| && Accepted(tbl, d)
      modifies this`pos, this`unreadMarker, this`getBuffer, this`bitsLeft, this`held, this`insufficientData
      ensures Unmarked(ok)
      ensures ok ==> Valid() && Known(tbl, s)
      ensures Shared(env[t], tbl, d) && old(InSync(env, goal)) && goal != [] && goal[0].Sym? && goal[0].tbl == t ==>
        (avail == |input| ==> ok) && (ok ==> s == goal[0].s && InSync(env, goal[1..]))
      ensures Tells(ok, avail == |input|, Symbol(input, tbl, d, old(Cur())), (Cur(), s))
    {
      hide Symbol;
      hide HoldsLow, BitVal, BitsOf, Pow2, Coming, MarkerAhead, GoodDerived, GoodCounts, DerivedD, Len, Code;
      ghost var sync := Shared(env[t], tbl, d) && InSync(env, goal) && goal != [] && goal[0].Sym? && goal[0].tbl == t;
      ghost var p := 0;
      if sync {
        FirstToken(env, goal, Remaining(), pad);
        p := SymbolPlace(env[t], tbl, d, goal[0].s);
      }
      ok, s := HuffDecode(tbl, d, p);
    }

    // A reader at the start of a segment that the coder wrote is in step with it.
    ghost method Synchronize(env: Env, bytes: seq<Byte>, marker: Byte, rest: seq<Byte>, ts: seq<Token>)
      requires AtStart() && GoodEnv(env) && HuffSegment(env, bytes, ts) && 0 < marker < 0xFF
      requires input[pos..] == bytes + [0xFF, marker] + rest
      modifies this`pad
      ensures Valid() && InSync(env, ts) && landing == (marker, rest)
    {
      hide HoldsLow, BytesBits, TokensBits;
      var code, fill :| bytes == Stuff(code) && FillsByte(fill) && BytesBits(code) == TokensBits(env, ts) + fill;
      UnstuffStuff(code, marker, rest);
      pad := fill;
      assert Remaining() == [] + BytesBits(code);
    }

    // next_marker; when it is suspended, what it has discarded stays discarded.
    method NextMarker() returns (ok: bool)
      requires pos <= avail <= |input| && unreadMarker == 0
      modifies this`pos, this`unreadMarker
      ensures pos <= avail && (!ok ==> unreadMarker == 0)
      ensures old(MarkerAhead()) ==> (avail == |input| ==> ok)
      ensures old(MarkerAhead()) ==> if ok then unreadMarker == landing.0 && input[pos..] == landing.1 else MarkerAhead()
    {
      ghost var live := MarkerAhead();
      var data: Byte := 0;
      var synced: nat := pos;
      while data == 0
        invariant synced <= pos <= avail && unreadMarker == 0
        invariant live ==> Reached(landing, data)
        invariant data == 0 ==> synced == pos
        decreases avail - pos
      {
        if pos == avail {
          return false;
        }
        assert input[pos..][1..] == input[pos + 1..];
        data := input[pos];
        pos := pos + 1;
        while data != 0xFF
          invariant synced < pos <= avail && unreadMarker == 0
          invariant live ==> Ends(input[synced..]) && MarkerAt(input[synced..]) == landing
          invariant live ==> if data == 0xFF then EndsAfterFF(input[pos..]) && MarkerAfterFF(input[pos..]) == landing
                             else Ends(input[pos..]) && MarkerAt(input[pos..]) == landing
          decreases avail - pos
        {
          synced := pos;
          if pos == avail {
            return false;
          }
          assert input[pos..][1..] == input[pos + 1..];
          data := input[pos];
          pos := pos + 1;
        }
        ok, data := SkipFill();
        if !ok {
          pos := synced;
          return false;
        }
        if data == 0 {
          synced := pos;
        }
      }
      unreadMarker := data;
      return true;
    }

    // process_restart with read_restart_marker; resync_to_restart is not part of this model.
    method ProcessRestart(num: nat) returns (ok: bool, found: bool)
      requires Valid() && num < 8
      modifies this
      ensures avail == old(avail) && arrivals == old(arrivals) && |lastDcVal| == |old(lastDcVal)|
      ensures ok && found ==> AtStart()
      ensures !ok ==> Valid()
      ensures old(MarkerAhead()) ==> (avail == |input| ==> ok)
      ensures old(MarkerAhead()) ==>
        if ok then found <==> old(landing).0 == 0xD0 + num else MarkerAhead() && landing == old(landing)
      ensures old(MarkerAhead()) && ok && found ==> input[pos..] == old(landing).1
    {
      hide Unstuff, BytesBits;
      bitsLeft := 0;
      held := [];
      NothingHeld(getBuffer);
      ok := true;
      if unreadMarker == 0 {
        ok := NextMarker();
      }
      if !ok {
        return false, false;
      }
      if unreadMarker != 0xD0 + num {
        return true, false;
      }
      unreadMarker, insufficientData, eobrun := 0, false, 0;
      lastDcVal := seq(|lastDcVal|, _ => 0);
      landing := if Ends(input[pos..]) then MarkerAt(input[pos..]) else (0, []);
      return true, true;
    }

    // The application supplies more bytes before it calls again.
    method Arrive()
      requires Valid()
      modifies this`avail, this`arrivals
      ensures Valid() && (arrivals == [] || |arrivals| < |old(arrivals)|) && (old(arrivals) == [] ==> avail == |input|)
    {
      if arrivals == [] || arrivals[0] >= |input| - avail {
        avail := |input|;
      } else {
        avail := avail + arrivals[0];
      }
      if arrivals != [] {
        arrivals := arrivals[1..];
      }
    }
  }

  lemma LoadNext(input: seq<Byte>, c: Cursor)
    requires c.left < MIN_GET_BITS && c.marker == 0
    ensures var data := NextData(input, c.pos); Load(input, c) == if data.Nothing? then Nothing else Load(input, Loaded(c, data.value))
  {
  }

  lemma NothingHeld(buffer: nat)
    ensures HoldsLow(buffer, [])
  {
    assert BitVal([]) == 0;
  }

  // The decoder has accepted the table, and derived its own tables from it.
  ghost function Accepted(tbl: JHuffTbl, d: DDerived): (yes: bool)
    ensures yes ==> tbl.Shaped() && Total(tbl.bits, 16) <= 256
  {
    tbl.Shaped() && GoodCounts(tbl.bits) && DerivedD(tbl, d)
  }

  // The coder's derived table and the decoder's tables come from the same Huffman table.
  ghost function Shared(c: CDerived, tbl: JHuffTbl, d: DDerived): (yes: bool)
    ensures yes ==> Accepted(tbl, d)
  {
    GoodDerived(c) && Accepted(tbl, d) && Derived(tbl, c)
  }

  lemma FirstToken(env: Env, goal: seq<Token>, all: seq<Bit>, pad: seq<Bit>)
    requires GoodEnv(env) && Codable(env, goal) && goal != [] && all == TokensBits(env, goal) + pad
    ensures HasCode(env, goal[0]) && Codable(env, goal[1..])
    ensures |TokenBits(env, goal[0])| <= |all| && all[..|TokenBits(env, goal[0])|] == TokenBits(env, goal[0])
    ensures all[|TokenBits(env, goal[0])|..] == TokensBits(env, goal[1..]) + pad
  {
    hide TokenBits, HasCode, GoodEnv;
    SplitOff(TokenBits(env, goal[0]), TokensBits(env, goal[1..]), pad);
  }

  lemma SplitOff(a: seq<Bit>, b: seq<Bit>, c: seq<Bit>)
    ensures (a + b + c)[..|a|] == a && (a + b + c)[|a|..] == b + c
  {
  }

  // A symbol with a code has a place in the table, whose code it is.
  lemma SymbolPlace(c: CDerived, tbl: JHuffTbl, d: DDerived, s: Byte) returns (p: nat)
    requires Shared(c, tbl, d) && c.ehufsi[s] != 0
    ensures p < Total(tbl.bits, 16) && p < 256 && tbl.huffval[p] == s
    ensures c.ehufsi[s] == Len(tbl.bits, p) && BitVal(BitsOf(c.ehufco[s], c.ehufsi[s])) == Code(tbl.bits, p)
  {
    p :| 0 <= p < Total(tbl.bits, 16) && tbl.huffval[p] == s;
    ValOfBits(c.ehufco[s], c.ehufsi[s]);
  }

  lemma NothingAbove(bits: seq<Byte>, held: seq<Bit>)
    requires |bits| == 17
    ensures Above(bits, held, 0)
  {
  }

  lemma AboveHeld(bits: seq<Byte>, held: seq<Bit>, next: seq<Bit>)
    requires |bits| == 17 && |held| >= HUFF_LOOKAHEAD && next == held[..HUFF_LOOKAHEAD] && Above(bits, next, HUFF_LOOKAHEAD)
    ensures Above(bits, held, HUFF_LOOKAHEAD)
  {
    assert next[..HUFF_LOOKAHEAD] == next;
  }

  lemma EntryInTable(tbl: JHuffTbl, d: DDerived)
    requires tbl.Shaped() && GoodCounts(tbl.bits) && DerivedD(tbl, d)
    ensures |d.lookNbits| == |d.lookSym| == 256
  {
  }

  // The entry for the next 8 bits when they begin with, or are the beginning of, the code of symbol p.
  lemma EntryFor(tbl: JHuffTbl, d: DDerived, all: seq<Bit>, next: seq<Bit>, p: nat)
    requires tbl.Shaped() && GoodCounts(tbl.bits) && DerivedD(tbl, d)
    requires |all| >= HUFF_LOOKAHEAD && next == all[..HUFF_LOOKAHEAD]
    requires p < Total(tbl.bits, 16) && Len(tbl.bits, p) <= |all| && BitVal(all[..Len(tbl.bits, p)]) == Code(tbl.bits, p)
    ensures BitVal(next) < 256 && |d.lookNbits| == |d.lookSym| == 256
    ensures if Len(tbl.bits, p) <= HUFF_LOOKAHEAD
            then d.lookNbits[BitVal(next)] == Len(tbl.bits, p) && d.lookSym[BitVal(next)] == tbl.huffval[p]
            else d.lookNbits[BitVal(next)] == 0
    ensures Len(tbl.bits, p) >= 1
  {
    hide Code, Kraft, Total, BitVal;
    var l := Len(tbl.bits, p);
    UsedLength(tbl.bits, p);
    if l <= HUFF_LOOKAHEAD {
      assert next[..l] == all[..l];
      LookaheadShort(tbl, d, next, p);
    } else {
      assert all[..l][..HUFF_LOOKAHEAD] == next;
      LookaheadLong(tbl, d, all[..l], p);
    }
  }

  lemma BegunFirst(bits: seq<Byte>, all: seq<Bit>, p: nat, l: nat, code: nat)
    requires |bits| == 17 && p < Total(bits, 16) && l <= Len(bits, p) <= |all|
    requires BitVal(all[..Len(bits, p)]) == Code(bits, p) && code == BitVal(all[..l])
    ensures Begun(bits, all, p, l, code)
  {
  }

  lemma Fits(bits: seq<Byte>, all: seq<Bit>, p: nat, l: nat, code: nat)
    requires |bits| == 17 && Begun(bits, all, p, l, code)
    ensures p < Total(bits, 16) && l <= Len(bits, p) <= 16 && Len(bits, p) <= |all|
  {
  }

  lemma Double(code: nat, l: nat, b: nat)
    requires code < Pow2(l) && b < 2
    ensures 2 * code + b < Pow2(l + 1)
  {
  }
}
