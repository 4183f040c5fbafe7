// Huffman tables: canonical codes (figures C.1 to C.3 of ITU-T T.81) and the derived tables of coder and decoder.
module HuffTable {
  import opened Numbers

  // bits[k] symbols have codes of length k; the symbols follow in order of code length.
  datatype JHuffTbl = JHuffTbl(bits: seq<Byte>, huffval: seq<Byte>) {
    predicate Shaped() {
      |bits| == 17 && |huffval| == 256
    }
  }

  // Number of codes of length up to l.
  function Total(bits: seq<Byte>, l: nat): nat
    requires l < |bits|
  {
    if l == 0 then 0 else Total(bits, l - 1) + bits[l]
  }

  // How much of the code space the lengths up to l take up, in units of 2^-l.
  function Kraft(bits: seq<Byte>, l: nat): nat
    requires l < |bits|
  {
    if l == 0 then 0 else 2 * Kraft(bits, l - 1) + bits[l]
  }

  predicate IsLen(bits: seq<Byte>, p: nat, l: nat)
    requires |bits| == 17
  {
    1 <= l <= 16 && Total(bits, l - 1) <= p < Total(bits, l)
  }

  function LenFrom(bits: seq<Byte>, p: nat, l: nat): (r: nat)
    requires |bits| == 17 && 1 <= l <= 16 && Total(bits, l - 1) <= p < Total(bits, 16)
    ensures IsLen(bits, p, r)
    decreases 16 - l
  {
    if p < Total(bits, l) then l else LenFrom(bits, p, l + 1)
  }

  // Code length of the p-th symbol, and its code.
  function Len(bits: seq<Byte>, p: nat): (r: nat)
    requires |bits| == 17 && p < Total(bits, 16)
    ensures IsLen(bits, p, r)
  {
    LenFrom(bits, p, 1)
  }

  function Code(bits: seq<Byte>, p: nat): (c: nat)
    requires |bits| == 17 && p < Total(bits, 16)
  {
    2 * Kraft(bits, Len(bits, p) - 1) + p - Total(bits, Len(bits, p) - 1)
  }

  lemma {:induction false} TotalGrows(bits: seq<Byte>, l: nat, m: nat)
    requires l <= m < |bits|
    ensures Total(bits, l) <= Total(bits, m)
  {
    if l < m { TotalGrows(bits, l, m - 1); }
  }

  lemma LenUnique(bits: seq<Byte>, p: nat, l: nat)
    requires |bits| == 17 && IsLen(bits, p, l)
    ensures p < Total(bits, 16) && Len(bits, p) == l
  {
    TotalGrows(bits, l, 16);
    var m := Len(bits, p);
    if m < l { TotalGrows(bits, m, l - 1); }
    if l < m { TotalGrows(bits, l, m - 1); }
  }

  // No length overfills the code space, and none uses the code of all ones.
  ghost predicate GoodCounts(bits: seq<Byte>) {
    |bits| == 17 && Total(bits, 16) <= 256 && forall l :: 1 <= l <= 16 ==> Kraft(bits, l) < Pow2(l)
  }

  lemma {:induction false} KraftGrows(bits: seq<Byte>, l: nat, m: nat)
    requires l <= m < |bits|
    ensures Kraft(bits, l) * Pow2(m - l) <= Kraft(bits, m)
    ensures Total(bits, l) == Total(bits, m) ==> Kraft(bits, l) * Pow2(m - l) == Kraft(bits, m)
  {
    if l < m {
      var k, q := Kraft(bits, l), Pow2(m - l - 1);
      KraftGrows(bits, l, m - 1);
      TotalGrows(bits, l, m - 1);
      assert Pow2(m - l) == 2 * q;
      hide Pow2;
      MulTwice(k, q);
    }
  }

  // A code fits its length and is never all ones.
  lemma CodeFits(bits: seq<Byte>, p: nat)
    requires GoodCounts(bits) && p < Total(bits, 16)
    ensures Code(bits, p) < Kraft(bits, Len(bits, p)) && Code(bits, p) + 1 < Pow2(Len(bits, p))
  {
  }

  // Canonical order: a later code, cut to the length of an earlier one, lies above it.
  lemma CodesOrdered(bits: seq<Byte>, p: nat, q: nat)
    requires |bits| == 17 && p < q < Total(bits, 16)
    ensures Len(bits, p) <= Len(bits, q)
    ensures (Code(bits, p) + 1) * Pow2(Len(bits, q) - Len(bits, p)) <= Code(bits, q)
  {
    var l, m := Len(bits, p), Len(bits, q);
    if m < l { TotalGrows(bits, m, l - 1); }
    if l < m {
      var c, k, d := Code(bits, p) + 1, Kraft(bits, l), Pow2(m - 1 - l);
      KraftGrows(bits, l, m - 1);
      assert c <= k;
      assert Pow2(m - l) == 2 * d;
      hide Pow2, Kraft;
      MulLe(c, k, d);
      MulTwice(c, d);
    } else {
      assert Pow2(m - l) == 1;
    }
  }

  // No code is a prefix of another.
  lemma PrefixFree(bits: seq<Byte>, p: nat, q: nat)
    requires |bits| == 17 && p < Total(bits, 16) && q < Total(bits, 16) && p != q && Len(bits, p) <= Len(bits, q)
    ensures Code(bits, q) / Pow2(Len(bits, q) - Len(bits, p)) != Code(bits, p)
  {
    var l, m := Len(bits, p), Len(bits, q);
    var d := Pow2(m - l);
    if p < q {
      CodesOrdered(bits, p, q);
      DivBelow(Code(bits, q), Code(bits, p) + 1, d);
    } else {
      CodesOrdered(bits, q, p);
      assert d == 1 by { assert m == l; }
    }
  }

  lemma DivBelow(x: nat, a: nat, d: nat)
    requires d >= 1 && a * d <= x
    ensures a <= x / d
  {
    var q := x / d;
    assert x < q * d + d;
    MulDist(q, 1, d);
    if q < a { MulLe(q + 1, a, d); }
  }

  // ----- figure C.1: code sizes -----

  // The sizes of the first p codes are entered.
  ghost predicate SizesUpTo(bits: seq<Byte>, huffsize: seq<nat>, p: nat)
    requires |bits| == 17
  {
    && |huffsize| == 257 && p <= Total(bits, 16) && p <= 256
    && forall q :: 0 <= q < p ==> huffsize[q] == Len(bits, q)
  }

  method FigC1(bits: seq<Byte>) returns (ok: bool, huffsize: array<nat>, lastp: nat)
    requires |bits| == 17
    ensures ok <==> Total(bits, 16) <= 256
    ensures huffsize.Length == 257 && fresh(huffsize)
    ensures ok ==> lastp == Total(bits, 16) && huffsize[lastp] == 0
    ensures ok ==> forall p :: 0 <= p < lastp ==> huffsize[p] == Len(bits, p)
  {
    huffsize := new nat[257](_ => 0);
    var p, l := 0, 1;
    while l <= 16
      invariant 1 <= l <= 17 && p == Total(bits, l - 1) && SizesUpTo(bits, huffsize[..], p)
    {
      TotalGrows(bits, l, 16);
      if p + bits[l] > 256 {
        return false, huffsize, p;
      }
      p := FillLength(bits, huffsize, l, p);
      l := l + 1;
    }
    huffsize[p] := 0;
    return true, huffsize, p;
  }

  method FillLength(bits: seq<Byte>, huffsize: array<nat>, l: nat, p0: nat) returns (p: nat)
    requires |bits| == 17 && 1 <= l <= 16 && p0 == Total(bits, l - 1) && Total(bits, l) <= 256 && Total(bits, l) <= Total(bits, 16)
    requires SizesUpTo(bits, huffsize[..], p0)
    modifies huffsize
    ensures p == Total(bits, l) && SizesUpTo(bits, huffsize[..], p)
  {
    hide Len;
    p := p0;
    var i := bits[l];
    while i > 0
      invariant 0 <= i <= bits[l] && p == Total(bits, l) - i && SizesUpTo(bits, huffsize[..], p)
    {
      LenUnique(bits, p, l);
      huffsize[p] := l;
      p := p + 1;
      i := i - 1;
    }
  }

  // ----- figure C.2: the codes -----

  // Sizes filled in by FigC1.
  ghost predicate Sizes(bits: seq<Byte>, huffsize: array<nat>, lastp: nat)
    reads huffsize
  {
    && |bits| == 17 && huffsize.Length == 257 && lastp == Total(bits, 16) <= 256 && huffsize[lastp] == 0
    && forall p :: 0 <= p < lastp ==> huffsize[p] == Len(bits, p)
  }

  // The first p codes are entered.
  ghost predicate CodesUpTo(bits: seq<Byte>, huffcode: seq<nat>, p: nat)
    requires |bits| == 17
  {
    && |huffcode| == 257 && p <= Total(bits, 16) && p <= 256
    && forall q :: 0 <= q < p ==> huffcode[q] == Code(bits, q)
  }

  // The rest of the codes of one length.
  method SameLength(bits: seq<Byte>, huffsize: array<nat>, lastp: nat, huffcode: array<nat>, si: nat, p0: nat, code0: nat)
    returns (p: nat, code: nat)
    requires Sizes(bits, huffsize, lastp) && huffcode != huffsize && 1 <= si <= 16
    requires p0 == Total(bits, si - 1) <= lastp && code0 == 2 * Kraft(bits, si - 1) && CodesUpTo(bits, huffcode[..], p0)
    modifies huffcode
    ensures p == Total(bits, si) <= lastp && code == Kraft(bits, si) && CodesUpTo(bits, huffcode[..], p)
  {
    hide Len;
    p, code := p0, code0;
    TotalGrows(bits, si, 16);
    while huffsize[p] == si
      invariant p0 <= p <= Total(bits, si) && code == code0 + p - p0 && CodesUpTo(bits, huffcode[..], p)
      decreases 257 - p
    {
      assert IsLen(bits, p, si);
      huffcode[p] := code;
      p := p + 1;
      code := code + 1;
    }
    if p < Total(bits, si) {
      LenUnique(bits, p, si);
      assert false;
    }
  }

  lemma {:induction false} NoneYet(bits: seq<Byte>, l: nat)
    requires l < |bits| && Total(bits, l) == 0
    ensures Kraft(bits, l) == 0
  {
    if l > 0 { NoneYet(bits, l - 1); }
  }

  lemma NoneBelow(bits: seq<Byte>, l: nat)
    requires l < |bits| && Total(bits, l) == 0
    ensures Kraft(bits, l) == 0 && forall m :: 1 <= m <= l ==> Kraft(bits, m) < Pow2(m)
  {
    NoneYet(bits, l);
    forall m | 1 <= m <= l
      ensures Kraft(bits, m) < Pow2(m)
    {
      TotalGrows(bits, m, l);
      NoneYet(bits, m);
    }
  }

  // Lengths past the last one in use cannot overfill.
  lemma Enough(bits: seq<Byte>, l: nat)
    requires |bits| == 17 && l <= 16 && Total(bits, l) == Total(bits, 16) <= 256
    requires forall m :: 1 <= m <= l ==> Kraft(bits, m) < Pow2(m)
    ensures GoodCounts(bits)
  {
    forall m | l < m <= 16
      ensures Kraft(bits, m) < Pow2(m)
    {
      EnoughAt(bits, l, m);
    }
    assert Kraft(bits, 0) == 0;
  }

  lemma EnoughAt(bits: seq<Byte>, l: nat, m: nat)
    requires |bits| == 17 && l <= m <= 16 && Total(bits, l) == Total(bits, 16) && Kraft(bits, l) < Pow2(l)
    ensures Kraft(bits, m) < Pow2(m)
  {
    hide Pow2, Kraft;
    TotalGrows(bits, l, m);
    TotalGrows(bits, m, 16);
    KraftGrows(bits, l, m);
    Pow2Plus(l, m - l);
    MulLess(Kraft(bits, l), Pow2(l), Pow2(m - l));
  }

  // Not overfull up to length l.
  ghost predicate GoodUpTo(bits: seq<Byte>, l: nat)
    requires |bits| == 17 && l <= 16
  {
    forall m :: 1 <= m <= l ==> Kraft(bits, m) < Pow2(m)
  }

  method FigC2(bits: seq<Byte>, huffsize: array<nat>, lastp: nat) returns (ok: bool, huffcode: array<nat>)
    requires Sizes(bits, huffsize, lastp)
    ensures ok <==> GoodCounts(bits)
    ensures huffcode.Length == 257 && fresh(huffcode)
    ensures ok ==> forall p :: 0 <= p < lastp ==> huffcode[p] == Code(bits, p)
  {
    hide Code, Kraft, Pow2;
    huffcode := new nat[257](_ => 0);
    if huffsize[0] == 0 {
      NoneBelow(bits, 16);
      Enough(bits, 0);
      return true, huffcode;
    }
    var code, si, p := 0, huffsize[0], 0;
    NoneBelow(bits, si - 1);
    while huffsize[p] != 0
      invariant 1 <= si <= 17 && p == Total(bits, si - 1) <= lastp && code == 2 * Kraft(bits, si - 1)
      invariant p < lastp ==> si <= 16
      invariant GoodUpTo(bits, si - 1) && CodesUpTo(bits, huffcode[..], p)
      decreases 18 - si
    {
      p, code := SameLength(bits, huffsize, lastp, huffcode, si, p, code);
      if code >= Pow2(si) {
        return false, huffcode;
      }
      code := 2 * code;
      si := si + 1;
    }
    Enough(bits, si - 1);
    return true, huffcode;
  }

  // ----- figure C.3: code and size by symbol -----

  datatype CDerived = CDerived(ehufco: seq<nat>, ehufsi: seq<nat>)

  predicate SymbolsFit(tbl: JHuffTbl, max: nat, n: nat)
    requires tbl.Shaped() && n <= 256
  {
    forall p :: 0 <= p < n ==> tbl.huffval[p] <= max
  }

  predicate SymbolsDiffer(tbl: JHuffTbl, n: nat)
    requires tbl.Shaped() && n <= 256
  {
    forall p, q :: 0 <= p < q < n ==> tbl.huffval[p] != tbl.huffval[q]
  }

  function MaxSymbol(isDC: bool): nat { if isDC then 15 else 255 }

  // What jpeg_make_c_derived_tbl accepts.
  ghost predicate GoodTable(tbl: JHuffTbl, isDC: bool) {
    && tbl.Shaped() && GoodCounts(tbl.bits)
    && SymbolsFit(tbl, MaxSymbol(isDC), Total(tbl.bits, 16)) && SymbolsDiffer(tbl, Total(tbl.bits, 16))
  }

  // The first n symbols have their codes and sizes entered; all others have size 0.
  ghost predicate Entered(tbl: JHuffTbl, n: nat, co: seq<nat>, si: seq<nat>)
    requires tbl.Shaped() && n <= Total(tbl.bits, 16) <= 256
  {
    && |co| == |si| == 256
    && (forall p :: 0 <= p < n ==> si[tbl.huffval[p]] == Len(tbl.bits, p) && co[tbl.huffval[p]] == Code(tbl.bits, p))
    && forall s :: 0 <= s < 256 && si[s] != 0 ==> exists p :: 0 <= p < n && tbl.huffval[p] == s
  }

  ghost predicate Derived(tbl: JHuffTbl, d: CDerived)
    requires tbl.Shaped() && Total(tbl.bits, 16) <= 256
  {
    Entered(tbl, Total(tbl.bits, 16), d.ehufco, d.ehufsi)
  }

  method FigC3(tbl: JHuffTbl, isDC: bool, huffsize: array<nat>, huffcode: array<nat>, lastp: nat) returns (ok: bool, d: CDerived)
    requires tbl.Shaped() && Sizes(tbl.bits, huffsize, lastp) && huffcode.Length == 257
    requires forall p :: 0 <= p < lastp ==> huffcode[p] == Code(tbl.bits, p)
    ensures ok <==> SymbolsFit(tbl, MaxSymbol(isDC), lastp) && SymbolsDiffer(tbl, lastp)
    ensures ok ==> Derived(tbl, d)
  {
    hide Len, Code, Total;
    var ehufco, ehufsi := new nat[256](_ => 0), new nat[256](_ => 0);
    var p := 0;
    while p < lastp
      invariant 0 <= p <= lastp && SymbolsFit(tbl, MaxSymbol(isDC), p) && SymbolsDiffer(tbl, p)
      invariant Entered(tbl, p, ehufco[..], ehufsi[..])
    {
      var i := tbl.huffval[p];
      if i > MaxSymbol(isDC) || ehufsi[i] != 0 {
        return false, CDerived([], []);
      }
      ehufco[i], ehufsi[i] := huffcode[p], huffsize[p];
      p := p + 1;
    }
    return true, CDerived(ehufco[..], ehufsi[..]);
  }

  // jpeg_make_c_derived_tbl
  method MakeCDerivedTbl(tbl: JHuffTbl, isDC: bool) returns (ok: bool, d: CDerived)
    requires tbl.Shaped()
    ensures ok <==> GoodTable(tbl, isDC)
    ensures ok ==> Derived(tbl, d)
  {
    hide Len, Code, Total, SymbolsFit, SymbolsDiffer;
    var huffsize, lastp;
    ok, huffsize, lastp := FigC1(tbl.bits);
    if !ok {
      return false, CDerived([], []);
    }
    var huffcode;
    ok, huffcode := FigC2(tbl.bits, huffsize, lastp);
    if !ok {
      return false, CDerived([], []);
    }
    ok, d := FigC3(tbl, isDC, huffsize, huffcode, lastp);
  }

  // Each symbol of an accepted table has one code, of 1 to 16 bits and not all ones; a symbol not in it has size 0.
  lemma DerivedCodes(tbl: JHuffTbl, isDC: bool, d: CDerived, s: Byte)
    requires GoodTable(tbl, isDC) && Derived(tbl, d)
    ensures d.ehufsi[s] != 0 ==> d.ehufsi[s] <= 16 && d.ehufco[s] + 1 < Pow2(d.ehufsi[s])
    ensures d.ehufsi[s] != 0 <==> exists p :: 0 <= p < Total(tbl.bits, 16) && tbl.huffval[p] == s
  {
    if d.ehufsi[s] != 0 {
      var p :| 0 <= p < Total(tbl.bits, 16) && tbl.huffval[p] == s;
      CodeFits(tbl.bits, p);
    }
  }
}
