// What the tokens of Huffman-coded scans say, apart from how they are computed (sections F.1.2 and G.1.2 of ITU-T T.81).
module HuffMeaning {
  import opened Numbers
  import opened ArithModel
  import opened HuffTable
  import opened HuffTokens
  import opened HuffEobRun
  import opened HuffValues
  import opened HuffDc
  import opened HuffAcFirst
  import opened HuffAcRefine
  import opened HuffOptimal

  // ----- values -----

  // A value of n bits is itself if it is positive, and the complement of its magnitude if it is negative: the first bit tells.
  lemma ValueSays(v: int)
    requires v != 0
    ensures var n := NumBits(Abs(v));
      && n >= 1 && Pow2(n - 1) <= Abs(v) < Pow2(n)
      && ValueBits(v, n) == (if v > 0 then v else Pow2(n) - 1 - Abs(v))
      && (ValueBits(v, n) >= Pow2(n - 1) <==> v > 0)
  {
    var n := NumBits(Abs(v));
    var h := Pow2(n - 1);
    assert Pow2(n) == 2 * h;
    hide Pow2, NumBits;
    if v < 0 { ModShift(v - 1, 2 * h); } else { ModLow(v, 2 * h); }
  }

  // Read back, bits with a leading one are themselves; the others stand for the negative values of that size.
  lemma ExtendSays(x: nat, s: nat)
    requires s >= 1 && x < Pow2(s)
    ensures x >= Pow2(s - 1) ==> Extend(x, s) == x
    ensures x < Pow2(s - 1) ==> Extend(x, s) < 0 && x + Abs(Extend(x, s)) == Pow2(s) - 1
    ensures NumBits(Abs(Extend(x, s))) == s
  {
    var v := Extend(x, s);
    var n := NumBits(Abs(v));
    assert Pow2(s) == 2 * Pow2(s - 1);
    hide NumBits;
    if n < s { Pow2Monotone(n, s - 1); } else if n > s { Pow2Monotone(s, n - 1); }
  }

  // ----- coefficients -----

  // r zeros and a value are that many ZRLs of sixteen zeros each, a symbol of the remaining zeros and the size, and the value's bits.
  lemma CoefSays(t: nat, r: nat, v: int)
    requires v != 0 && NumBits(Abs(v)) <= MAX_COEF_BITS
    ensures var ds, n := CoefTokens(t, r, v), NumBits(Abs(v)); var z := |ds| - 2;
      && z >= 0 && (forall i :: 0 <= i < z ==> ds[i] == Sym(t, 0xF0))
      && ds[z].Sym? && ds[z].tbl == t && r == 16 * z + ds[z].s / 16 && ds[z].s % 16 == n && 1 <= n <= MAX_COEF_BITS
      && ds[z + 1] == Raw(if v > 0 then v else Pow2(n) - 1 - Abs(v), n)
  {
    ValueSays(v);
    hide Pow2, NumBits, ValueBits;
    Nibbles(r % 16, NumBits(Abs(v)));
  }

  lemma Nibbles(r: nat, n: nat)
    requires r < 16 && n < 16
    ensures (16 * r + n) / 16 == r && (16 * r + n) % 16 == n
  {
  }

  // The next coefficient of a band that is not zero, after the zeros before it; behind the last one there is nothing.
  lemma {:induction false} BandSays(t: nat, w: seq<int>, k: nat, r: nat, p: nat, se: nat)
    requires |w| == 64 && k <= p <= se < 64 && InRange(w, k, se) && w[p] != 0 && forall i :: k <= i < p ==> w[i] == 0
    ensures InRange(w, p + 1, se) && Coefs(t, w, k, r, se) == CoefTokens(t, r + p - k, w[p]) + Coefs(t, w, p + 1, 0, se)
    decreases p - k
  {
    hide CoefTokens;
    if k < p { BandSays(t, w, k + 1, r + 1, p, se); }
  }

  lemma {:induction false} NothingLeft(t: nat, w: seq<int>, k: nat, r: nat, se: nat)
    requires |w| == 64 && se < 64 && InRange(w, k, se) && forall i :: k <= i <= se ==> w[i] == 0
    ensures Coefs(t, w, k, r, se) == []
    decreases 64 - k
  {
    if k <= se { NothingLeft(t, w, k + 1, r + 1, se); }
  }

  // A sequential block has an end-of-block just if its last coefficient is zero, and nothing behind it.
  lemma EndSays(t: nat, w: seq<int>, se: nat)
    requires |w| == 64 && se < 64 && InRange(w, 1, se)
    ensures Sym(t, 0) in AcTokens(t, w, se) <==> se > 0 && w[se] == 0
    ensures var ds := AcTokens(t, w, se); forall i :: 0 <= i < |ds| && ds[i] == Sym(t, 0) ==> i == |ds| - 1
  {
    hide InRange, Coefs;
    NoEnd(t, w, 1, 0, se);
    var ds := AcTokens(t, w, se);
    if se > 0 && w[se] == 0 { assert ds[|ds| - 1] == Sym(t, 0); }
  }

  lemma {:induction false} NoEnd(t: nat, w: seq<int>, k: nat, r: nat, se: nat)
    requires |w| == 64 && se < 64 && InRange(w, k, se)
    ensures Sym(t, 0) !in Coefs(t, w, k, r, se)
    decreases 64 - k
  {
    hide CoefTokens, NumBits;
    if k <= se {
      if w[k] == 0 {
        NoEnd(t, w, k + 1, r + 1, se);
      } else {
        NoEndInCoef(t, r, w[k]);
        NoEnd(t, w, k + 1, 0, se);
      }
    }
  }

  lemma NoEndInCoef(t: nat, r: nat, v: int)
    requires v != 0 && NumBits(Abs(v)) <= MAX_COEF_BITS
    ensures Sym(t, 0) !in CoefTokens(t, r, v)
  {
    CoefSays(t, r, v);
    hide CoefTokens, NumBits;
  }

  // A difference is its size, and its bits unless it is zero.
  lemma DcSays(t: nat, diff: int)
    requires DiffInRange(diff)
    ensures diff == 0 ==> DcTokens(t, diff) == [Sym(t, 0)]
    ensures diff != 0 ==> var n := NumBits(Abs(diff));
      1 <= n <= MAX_DIFF_BITS && DcTokens(t, diff) == [Sym(t, n), Raw(if diff > 0 then diff else Pow2(n) - 1 - Abs(diff), n)]
  {
    if diff != 0 {
      ValueSays(diff);
      hide Pow2, NumBits, ValueBits;
      assert DcTokens(t, diff) == [Sym(t, NumBits(Abs(diff)))] + [Raw(ValueBits(diff, NumBits(Abs(diff))), NumBits(Abs(diff)))];
    }
  }

  // ----- runs of blocks -----

  // A run is the place of its leading bit, and the bits below that.
  lemma RunSays(t: nat, e: nat)
    requires 0 < e <= MAX_EOBRUN
    ensures var ds := EobSymbol(t, e);
      && 1 <= |ds| <= 2 && ds[0].Sym? && ds[0].tbl == t && ds[0].s % 16 == 0 && ds[0].s / 16 <= 14
      && Pow2(ds[0].s / 16) <= e < 2 * Pow2(ds[0].s / 16)
      && (if |ds| == 1 then e == 1 else ds[1].Raw? && ds[1].n == ds[0].s / 16 && e == Pow2(ds[1].n) + ds[1].v)
  {
    RunLengthBits(e);
    var n := NumBits(e) - 1;
    var p := Pow2(n);
    assert Pow2(NumBits(e)) == 2 * p && (n == 0 ==> p == 1);
    hide Pow2, NumBits;
    Nibbles(n, 0);
    TopBit(e, p);
  }

  lemma TopBit(e: nat, p: nat)
    requires p <= e < 2 * p
    ensures e % p == e - p
  {
  }

  // A run goes on until a block has a coefficient, or the blocks end, or the run cannot be longer, or more than 937 bits wait for it.
  lemma {:induction false} RunStops(e: nat, be: nat, bs: seq<AcBlock>)
    requires 0 < e <= MAX_EOBRUN
    ensures var n := Joining(e, be, bs);
      && n <= |bs| && (forall i :: 0 <= i < n ==> bs[i].head == [])
      && (n == |bs| || bs[n].head != [] || e + n == 32767 || Waiting(be, bs, n) > 937)
      && (n > 0 ==> e + n - 1 < 32767 && Waiting(be, bs, n - 1) <= 937)
    decreases |bs|
  {
    if Joining(e, be, bs) > 0 {
      RunStops(e + 1, be + |bs[0].tail|, bs[1..]);
      var n := Joining(e, be, bs);
      WaitingFrom(be, bs, n);
      if n > 1 { WaitingFrom(be, bs, n - 1); }
    }
  }

  // The correction bits saved up after n more blocks.
  function Waiting(be: nat, bs: seq<AcBlock>, n: nat): nat
    requires n <= |bs|
  {
    if n == 0 then be else Waiting(be, bs, n - 1) + |bs[n - 1].tail|
  }

  lemma {:induction false} WaitingFrom(be: nat, bs: seq<AcBlock>, n: nat)
    requires 1 <= n <= |bs|
    ensures Waiting(be, bs, n) == Waiting(be + |bs[0].tail|, bs[1..], n - 1)
  {
    if n > 1 { WaitingFrom(be, bs, n - 1); }
  }

  // ----- refinement -----

  // A coefficient that becomes nonzero is the zeros before it with a size of 1, and a one just if it is positive.
  lemma NewSays(t: nat, r: nat, v: int)
    requires r < 16 && Abs(v) == 1
    ensures var ds := NewCoef(t, r, v);
      && |ds| == 2 && ds[0].Sym? && ds[0].tbl == t && ds[0].s / 16 == r && ds[0].s % 16 == 1
      && ds[1] == Raw(if v == 1 then 1 else 0, 1)
  {
    Nibbles(r, 1);
  }

  // One bit for every coefficient that was nonzero before: its magnitude is twice what was known, and the bit.
  lemma {:induction false} CorrSays(a: seq<int>, k: nat, k1: nat, j: nat) returns (i: nat)
    requires k <= k1 <= |a| && j < |Corr(a, k, k1)|
    ensures k <= i < k1 && Abs(a[i]) == 2 * (Abs(a[i]) / 2) + Corr(a, k, k1)[j] && Abs(a[i]) / 2 > 0
    ensures Raws(Corr(a, k, k1))[j] == Raw(Abs(a[i]) % 2, 1)
    ensures j == |Corr(a, k, i)|
    decreases k1 - k
  {
    if Abs(a[k]) > 1 {
      if j == 0 {
        i := k;
      } else {
        i := CorrSays(a, k + 1, k1, j - 1);
        CorrFrom(a, k, i);
      }
    } else {
      i := CorrSays(a, k + 1, k1, j);
      CorrFrom(a, k, i);
    }
  }

  lemma CorrFrom(a: seq<int>, k: nat, i: nat)
    requires k < i <= |a|
    ensures |Corr(a, k, i)| == |Corr(a, k + 1, i)| + if Abs(a[k]) > 1 then 1 else 0
  {
  }

  // ----- canonical codes -----

  // The first code is all zeros; each next one is one more, moved to the left by as many bits as it is longer (figure C.2).
  lemma FirstCode(bits: seq<Byte>)
    requires |bits| == 17 && Total(bits, 16) > 0
    ensures Code(bits, 0) == 0
  {
    var l := Len(bits, 0);
    hide Len;
    NoneShorter(bits, l - 1);
  }

  lemma {:induction false} NoneShorter(bits: seq<Byte>, l: nat)
    requires l < |bits| && Total(bits, l) == 0
    ensures Kraft(bits, l) == 0
  {
    if l > 0 { NoneShorter(bits, l - 1); }
  }

  lemma NextCode(bits: seq<Byte>, p: nat)
    requires |bits| == 17 && p + 1 < Total(bits, 16)
    ensures Len(bits, p) <= Len(bits, p + 1)
    ensures Code(bits, p + 1) == (Code(bits, p) + 1) * Pow2(Len(bits, p + 1) - Len(bits, p))
  {
    hide Len, Code, Total, Pow2;
    LenGrows(bits, p, p + 1);
    Pow2First();
    var l, m := Len(bits, p), Len(bits, p + 1);
    if l < m { NextLonger(bits, p, l, m); } else { NextAsLong(bits, p); }
  }

  lemma NextAsLong(bits: seq<Byte>, p: nat)
    requires |bits| == 17 && p + 1 < Total(bits, 16) && Len(bits, p) == Len(bits, p + 1)
    ensures Code(bits, p + 1) == Code(bits, p) + 1
  {
  }

  lemma NextLonger(bits: seq<Byte>, p: nat, l: nat, m: nat)
    requires |bits| == 17 && p + 1 < Total(bits, 16) && l == Len(bits, p) < m == Len(bits, p + 1)
    ensures Code(bits, p + 1) == (Code(bits, p) + 1) * Pow2(m - l)
  {
    LastOfIts(bits, p, l, m);
    hide Len, Pow2, Kraft, Total, Code;
    TotalGrows(bits, l, m - 1);
    NoneBetween(bits, l, m - 1);
    MoveLeft(Kraft(bits, l), m - l);
  }

  lemma LastOfIts(bits: seq<Byte>, p: nat, l: nat, m: nat)
    requires |bits| == 17 && p + 1 < Total(bits, 16) && l == Len(bits, p) < m == Len(bits, p + 1)
    ensures 1 <= l && m <= 16 && Total(bits, l) == p + 1 == Total(bits, m - 1)
    ensures Code(bits, p) + 1 == Kraft(bits, l) && Code(bits, p + 1) == 2 * Kraft(bits, m - 1)
  {
    hide Len;
    TotalGrows(bits, l, m - 1);
  }

  lemma MoveLeft(x: nat, d: nat)
    requires d >= 1
    ensures 2 * (x * Pow2(d - 1)) == x * Pow2(d)
  {
    assert Pow2(d) == 2 * Pow2(d - 1);
  }

  lemma {:induction false} NoneBetween(bits: seq<Byte>, l: nat, m: nat)
    requires l <= m < |bits| && Total(bits, m) == Total(bits, l)
    ensures Kraft(bits, m) == Kraft(bits, l) * Pow2(m - l)
  {
    if l < m {
      TotalGrows(bits, l, m - 1);
      NoneBetween(bits, l, m - 1);
      MoveLeft(Kraft(bits, l), m - l);
    }
  }
}
