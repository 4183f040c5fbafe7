// The decoder's derived table: bit-serial tables of figure F.15 of ITU-T T.81, and the 8-bit lookahead.
module HuffLookup {
  import opened Numbers
  import opened BitStrings
  import opened HuffTable

  const HUFF_LOOKAHEAD := 8

  datatype DDerived = DDerived(maxcode: seq<int>, valoffset: seq<int>, lookNbits: seq<nat>, lookSym: seq<Byte>)

  // Largest code of length l, -1 if there is none; the entry past the end stops every search.
  function MaxCode(bits: seq<Byte>, l: nat): int
    requires |bits| == 17 && l <= 17
  {
    if l == 17 then 0xFFFFF else if bits[l] > 0 then Kraft(bits, l) - 1 else -1
  }

  function ValOffset(bits: seq<Byte>, l: nat): int
    requires |bits| == 17 && 1 <= l <= 16
  {
    Total(bits, l - 1) - 2 * Kraft(bits, l - 1)
  }

  // The code of symbol p is short enough, and v starts with it.
  predicate Matches(bits: seq<Byte>, p: nat, v: nat)
    requires |bits| == 17 && p < Total(bits, 16)
  {
    Len(bits, p) <= HUFF_LOOKAHEAD && v / Pow2(HUFF_LOOKAHEAD - Len(bits, p)) == Code(bits, p)
  }

  ghost predicate NoMatch(bits: seq<Byte>, n: nat, v: nat)
    requires |bits| == 17 && n <= Total(bits, 16)
  {
    forall p :: 0 <= p < n ==> !Matches(bits, p, v)
  }

  // The lookahead entry for v, the first n symbols having been entered.
  ghost predicate LookIs(tbl: JHuffTbl, n: nat, v: nat, nb: nat, sym: Byte)
    requires tbl.Shaped() && n <= Total(tbl.bits, 16) <= 256
  {
    if nb == 0 then NoMatch(tbl.bits, n, v)
    else exists p :: 0 <= p < n && Matches(tbl.bits, p, v) && nb == Len(tbl.bits, p) && sym == tbl.huffval[p]
  }

  // What decoding can come up with: a symbol of the table, or the zero made up for a code that is not in it.
  ghost predicate Known(tbl: JHuffTbl, s: Byte)
    requires tbl.Shaped() && Total(tbl.bits, 16) <= 256
  {
    s == 0 || exists p :: 0 <= p < Total(tbl.bits, 16) && tbl.huffval[p] == s
  }

  ghost predicate SerialReady(tbl: JHuffTbl, maxcode: seq<int>, valoffset: seq<int>)
    requires tbl.Shaped()
  {
    && |maxcode| == 18 && |valoffset| == 17
    && (forall l :: 1 <= l <= 17 ==> maxcode[l] == MaxCode(tbl.bits, l))
    && forall l :: 1 <= l <= 16 && tbl.bits[l] > 0 ==> valoffset[l] == ValOffset(tbl.bits, l)
  }

  ghost predicate LookReady(tbl: JHuffTbl, n: nat, nbits: seq<nat>, sym: seq<Byte>)
    requires tbl.Shaped() && n <= Total(tbl.bits, 16) <= 256
  {
    |nbits| == |sym| == 256 && forall v :: 0 <= v < 256 ==> LookIs(tbl, n, v, nbits[v], sym[v])
  }

  ghost predicate DerivedD(tbl: JHuffTbl, d: DDerived)
    requires tbl.Shaped() && Total(tbl.bits, 16) <= 256
  {
    SerialReady(tbl, d.maxcode, d.valoffset) && Total(tbl.bits, HUFF_LOOKAHEAD) <= Total(tbl.bits, 16)
    && LookReady(tbl, Total(tbl.bits, HUFF_LOOKAHEAD), d.lookNbits, d.lookSym)
  }

  // ----- figure F.15 -----

  lemma LastOfLength(bits: seq<Byte>, l: nat)
    requires |bits| == 17 && 1 <= l <= 16 && bits[l] > 0
    ensures Total(bits, l) <= Total(bits, 16)
    ensures Len(bits, Total(bits, l - 1)) == l && Len(bits, Total(bits, l) - 1) == l
    ensures Code(bits, Total(bits, l - 1)) == 2 * Kraft(bits, l - 1) && Code(bits, Total(bits, l) - 1) == Kraft(bits, l) - 1
  {
    TotalGrows(bits, l, 16);
    LenUnique(bits, Total(bits, l - 1), l);
    LenUnique(bits, Total(bits, l) - 1, l);
  }

  method FigF15(tbl: JHuffTbl, huffcode: array<nat>) returns (maxcode: array<int>, valoffset: array<int>)
    requires tbl.Shaped() && Total(tbl.bits, 16) <= 256 && huffcode.Length == 257
    requires forall p :: 0 <= p < Total(tbl.bits, 16) ==> huffcode[p] == Code(tbl.bits, p)
    ensures SerialReady(tbl, maxcode[..], valoffset[..])
  {
    hide Code, Len;
    maxcode, valoffset := new int[18](_ => 0), new int[17](_ => 0);
    var p: nat := 0;
    for l := 1 to 17
      invariant p == Total(tbl.bits, l - 1)
      invariant forall m :: 1 <= m < l ==> maxcode[m] == MaxCode(tbl.bits, m)
      invariant forall m :: 1 <= m < l && tbl.bits[m] > 0 ==> valoffset[m] == ValOffset(tbl.bits, m)
    {
      if tbl.bits[l] > 0 {
        LastOfLength(tbl.bits, l);
        valoffset[l] := p - huffcode[p];
        p := p + tbl.bits[l];
        maxcode[l] := huffcode[p - 1];
      } else {
        maxcode[l] := -1;
      }
    }
    maxcode[17] := 0xFFFFF;
  }

  // ----- the lookahead table -----

  lemma MatchRange(bits: seq<Byte>, p: nat, v: nat)
    requires |bits| == 17 && p < Total(bits, 16) && Len(bits, p) <= HUFF_LOOKAHEAD
    ensures Matches(bits, p, v) <==>
      Code(bits, p) * Pow2(HUFF_LOOKAHEAD - Len(bits, p)) <= v < (Code(bits, p) + 1) * Pow2(HUFF_LOOKAHEAD - Len(bits, p))
  {
    hide Code, Len;
    var c, d := Code(bits, p), Pow2(HUFF_LOOKAHEAD - Len(bits, p));
    hide Pow2;
    MulDist(c, 1, d);
    assert v == v / d * d + v % d;
    if c * d <= v < (c + 1) * d {
      Quotient(v, c, d, v - c * d);
    }
  }

  lemma LookNext(tbl: JHuffTbl, n: nat, v: nat, nb: nat, sym: Byte)
    requires tbl.Shaped() && n < Total(tbl.bits, 16) <= 256 && LookIs(tbl, n, v, nb, sym)
    ensures !Matches(tbl.bits, n, v) ==> LookIs(tbl, n + 1, v, nb, sym)
    ensures Matches(tbl.bits, n, v) ==> LookIs(tbl, n + 1, v, Len(tbl.bits, n), tbl.huffval[n])
  {
    hide Matches, Len;
  }

  // Enter one code: all the 8-bit strings that start with it.
  method EnterCode(tbl: JHuffTbl, p: nat, code: nat, lookNbits: array<nat>, lookSym: array<Byte>)
    requires tbl.Shaped() && GoodCounts(tbl.bits) && p < Total(tbl.bits, 16) && Len(tbl.bits, p) <= HUFF_LOOKAHEAD
    requires code == Code(tbl.bits, p) && LookReady(tbl, p, lookNbits[..], lookSym[..])
    modifies lookNbits, lookSym
    ensures LookReady(tbl, p + 1, lookNbits[..], lookSym[..])
  {
    hide Len, Code, Matches, LookIs, Total, Kraft;
    var l := Len(tbl.bits, p);
    var step := Pow2(HUFF_LOOKAHEAD - l);
    var lookbits := code * step;
    LookFits(tbl.bits, p);
    ghost var nb0, sym0 := lookNbits[..], lookSym[..];
    var ctr := step;
    while ctr > 0
      invariant 0 <= ctr <= step && lookbits + ctr == (code + 1) * step
      invariant forall v :: 0 <= v < 256 ==>
        if code * step <= v < lookbits then lookNbits[v] == l && lookSym[v] == tbl.huffval[p]
        else lookNbits[v] == nb0[v] && lookSym[v] == sym0[v]
    {
      lookNbits[lookbits] := l;
      lookSym[lookbits] := tbl.huffval[p];
      lookbits := lookbits + 1;
      ctr := ctr - 1;
    }
    forall v | 0 <= v < 256
      ensures LookIs(tbl, p + 1, v, lookNbits[v], lookSym[v])
    {
      MatchRange(tbl.bits, p, v);
      LookNext(tbl, p, v, nb0[v], sym0[v]);
    }
  }

  lemma LookFits(bits: seq<Byte>, p: nat)
    requires GoodCounts(bits) && p < Total(bits, 16) && Len(bits, p) <= HUFF_LOOKAHEAD
    ensures var step := Pow2(HUFF_LOOKAHEAD - Len(bits, p));
      0 < step && (Code(bits, p) + 1) * step <= 256 && (Code(bits, p) + 1) * step == Code(bits, p) * step + step
  {
    hide Code, Len;
    var c, l := Code(bits, p), Len(bits, p);
    CodeFits(bits, p);
    Pow2Plus(l, HUFF_LOOKAHEAD - l);
    assert Pow2(8) == 256;
    var step, whole := Pow2(HUFF_LOOKAHEAD - l), Pow2(l);
    hide Pow2;
    MulLe(c + 1, whole, step);
    MulDist(c, 1, step);
  }

  method Lookahead(tbl: JHuffTbl, huffcode: array<nat>) returns (lookNbits: array<nat>, lookSym: array<Byte>)
    requires tbl.Shaped() && GoodCounts(tbl.bits) && huffcode.Length == 257
    requires forall p :: 0 <= p < Total(tbl.bits, 16) ==> huffcode[p] == Code(tbl.bits, p)
    ensures Total(tbl.bits, HUFF_LOOKAHEAD) <= Total(tbl.bits, 16)
    ensures LookReady(tbl, Total(tbl.bits, HUFF_LOOKAHEAD), lookNbits[..], lookSym[..])
  {
    hide Code, Len, LookIs, Kraft;
    lookNbits, lookSym := new nat[256](_ => 0), new Byte[256](_ => 0);
    NothingEntered(tbl, lookNbits[..], lookSym[..]);
    hide LookReady;
    TotalGrows(tbl.bits, HUFF_LOOKAHEAD, 16);
    var p: nat := 0;
    for l := 1 to HUFF_LOOKAHEAD + 1
      invariant fresh(lookNbits) && fresh(lookSym) && p <= Total(tbl.bits, 16) && p == Total(tbl.bits, l - 1) && LookReady(tbl, p, lookNbits[..], lookSym[..])
    {
      var i: nat := 1;
      TotalGrows(tbl.bits, l, 16);
      while i <= tbl.bits[l]
        invariant 1 <= i && i - 1 <= tbl.bits[l] && p == Total(tbl.bits, l - 1) + i - 1
        invariant fresh(lookNbits) && fresh(lookSym) && LookReady(tbl, p, lookNbits[..], lookSym[..])
      {
        LenUnique(tbl.bits, p, l);
        EnterCode(tbl, p, huffcode[p], lookNbits, lookSym);
        p := p + 1;
        i := i + 1;
      }
    }
  }

  lemma NothingEntered(tbl: JHuffTbl, nbits: seq<nat>, sym: seq<Byte>)
    requires tbl.Shaped() && Total(tbl.bits, 16) <= 256 && |nbits| == |sym| == 256 && forall v :: 0 <= v < 256 ==> nbits[v] == 0
    ensures LookReady(tbl, 0, nbits, sym)
  {
  }

  // What jpeg_make_d_derived_tbl accepts: it does not look for duplicate symbols.
  ghost predicate GoodForDecoding(tbl: JHuffTbl, isDC: bool) {
    tbl.Shaped() && GoodCounts(tbl.bits) && (isDC ==> SymbolsFit(tbl, 15, Total(tbl.bits, 16)))
  }

  // jpeg_make_d_derived_tbl
  method MakeDDerivedTbl(tbl: JHuffTbl, isDC: bool) returns (ok: bool, d: DDerived)
    requires tbl.Shaped()
    ensures ok <==> GoodForDecoding(tbl, isDC)
    ensures ok ==> DerivedD(tbl, d)
  {
    TotalGrows(tbl.bits, HUFF_LOOKAHEAD, 16);
    hide Len, Code, Total, SymbolsFit, SerialReady, LookReady;
    d := DDerived([], [], [], []);
    var huffsize, numsymbols;
    ok, huffsize, numsymbols := FigC1(tbl.bits);
    if !ok {
      return;
    }
    var huffcode;
    ok, huffcode := FigC2(tbl.bits, huffsize, numsymbols);
    if !ok {
      return;
    }
    var maxcode, valoffset := FigF15(tbl, huffcode);
    var lookNbits, lookSym := Lookahead(tbl, huffcode);
    d := DDerived(maxcode[..], valoffset[..], lookNbits[..], lookSym[..]);
    if isDC {
      ok := DcSymbols(tbl, numsymbols);
    }
  }

  method DcSymbols(tbl: JHuffTbl, numsymbols: nat) returns (ok: bool)
    requires tbl.Shaped() && numsymbols <= 256
    ensures ok <==> SymbolsFit(tbl, 15, numsymbols)
  {
    var i := 0;
    while i < numsymbols
      invariant 0 <= i <= numsymbols && SymbolsFit(tbl, 15, i)
    {
      if tbl.huffval[i] > 15 {
        return false;
      }
      i := i + 1;
    }
    return true;
  }

  // A table the coder accepts, the decoder accepts.
  lemma CoderImpliesDecoder(tbl: JHuffTbl, isDC: bool)
    requires GoodTable(tbl, isDC)
    ensures GoodForDecoding(tbl, isDC)
  {
  }

  // ----- decoding -----

  // Figure F.16 from length l on: the length at which the search stops (17: no code).
  function ScanLen(bits: seq<Byte>, s: seq<Bit>, l: nat): (r: nat)
    requires |bits| == 17 && |s| >= 17 && 1 <= l <= 17
    ensures l <= r <= 17
    decreases 17 - l
  {
    if l == 17 || BitVal(s[..l]) <= MaxCode(bits, l) then l else ScanLen(bits, s, l + 1)
  }

  // The search has gone past length l: the string lies above all codes so far.
  ghost predicate Above(bits: seq<Byte>, s: seq<Bit>, l: nat)
    requires |bits| == 17 && l <= 16 && l <= |s|
  {
    BitVal(s[..l]) >= Kraft(bits, l)
  }

  lemma AboveNext(bits: seq<Byte>, s: seq<Bit>, l: nat)
    requires |bits| == 17 && 1 <= l <= 16 && l <= |s| && Above(bits, s, l - 1)
    ensures BitVal(s[..l]) > MaxCode(bits, l) <==> Above(bits, s, l)
    ensures BitVal(s[..l]) >= 2 * Kraft(bits, l - 1)
  {
    assert s[..l] == s[..l - 1] + [s[l - 1]];
    ValSnoc(s[..l - 1], s[l - 1]);
  }

  // Where the search stops there is a symbol, and the table entries lead to it.
  lemma StopsAtSymbol(bits: seq<Byte>, s: seq<Bit>, l: nat) returns (p: nat)
    requires |bits| == 17 && 1 <= l <= 16 && l <= |s| && Above(bits, s, l - 1) && BitVal(s[..l]) <= MaxCode(bits, l)
    ensures p < Total(bits, 16) && Len(bits, p) == l && Code(bits, p) == BitVal(s[..l]) && p == BitVal(s[..l]) + ValOffset(bits, l)
  {
    AboveNext(bits, s, l);
    p := BitVal(s[..l]) + ValOffset(bits, l);
    LenUnique(bits, p, l);
  }

  lemma AboveCode(bits: seq<Byte>, s: seq<Bit>, l: nat)
    requires |bits| == 17 && l <= 16 && l <= |s| && BitVal(s[..l]) >= Kraft(bits, l)
    ensures Above(bits, s, l) && (l >= 1 ==> BitVal(s[..l]) > MaxCode(bits, l))
  {
  }

  // A code at the front of the string keeps the search going until its whole length is in.
  lemma CodeAbove(bits: seq<Byte>, p: nat, s: seq<Bit>, l: nat)
    requires GoodCounts(bits) && p < Total(bits, 16) && Len(bits, p) <= |s| && l <= Len(bits, p) - 1
    requires BitVal(s[..Len(bits, p)]) == Code(bits, p)
    ensures Above(bits, s, l) && (l >= 1 ==> BitVal(s[..l]) > MaxCode(bits, l))
  {
    assert Code(bits, p) >= 2 * Kraft(bits, Len(bits, p) - 1);
    TakenAbove(bits, s, l, Len(bits, p));
    AboveCode(bits, s, l);
  }

  lemma TakenAbove(bits: seq<Byte>, s: seq<Bit>, l: nat, m: nat)
    requires |bits| == 17 && l < m <= 16 && m <= |s| && BitVal(s[..m]) >= 2 * Kraft(bits, m - 1)
    ensures BitVal(s[..l]) >= Kraft(bits, l)
  {
    var k, d := Kraft(bits, l), Pow2(m - 1 - l);
    assert Pow2(m - l) == 2 * d;
    hide *;
    KraftGrows(bits, l, m - 1);
    assert s[..m][..l] == s[..l];
    ValTake(s[..m], l);
    MulTwice(k, d);
    DivBelow(BitVal(s[..m]), k, 2 * d);
  }

  // Decoding inverts coding, from whatever length up to its own the search is entered.
  lemma {:induction false} ScanFinds(bits: seq<Byte>, p: nat, s: seq<Bit>, l: nat)
    requires GoodCounts(bits) && p < Total(bits, 16) && |s| >= 17 && 1 <= l <= Len(bits, p)
    requires BitVal(s[..Len(bits, p)]) == Code(bits, p)
    ensures ScanLen(bits, s, l) == Len(bits, p) && BitVal(s[..Len(bits, p)]) + ValOffset(bits, Len(bits, p)) == p
    decreases Len(bits, p) - l
  {
    if l < Len(bits, p) {
      CodeAbove(bits, p, s, l);
      ScanFinds(bits, p, s, l + 1);
    } else {
      CodeFits(bits, p);
    }
  }

  // Without a match in the table the code, if there is one, is longer than 8 bits.
  lemma {:induction false} NoMatchAbove(bits: seq<Byte>, s: seq<Bit>, l: nat)
    requires GoodCounts(bits) && |s| >= HUFF_LOOKAHEAD && l <= HUFF_LOOKAHEAD
    requires NoMatch(bits, Total(bits, 16), BitVal(s[..HUFF_LOOKAHEAD]))
    ensures Above(bits, s, l) && forall m :: 1 <= m <= l ==> BitVal(s[..m]) > MaxCode(bits, m)
  {
    hide Code, Len, Matches;
    if l > 0 {
      NoMatchAbove(bits, s, l - 1);
      AboveNext(bits, s, l);
      if BitVal(s[..l]) <= MaxCode(bits, l) {
        var p := StopsAtSymbol(bits, s, l);
        StartsWith(bits, s, p);
        assert false;
      }
    }
  }

  lemma StartsWith(bits: seq<Byte>, s: seq<Bit>, p: nat)
    requires |bits| == 17 && |s| >= HUFF_LOOKAHEAD && p < Total(bits, 16) && Len(bits, p) <= HUFF_LOOKAHEAD
    ensures Matches(bits, p, BitVal(s[..HUFF_LOOKAHEAD])) <==> BitVal(s[..Len(bits, p)]) == Code(bits, p)
  {
    assert s[..HUFF_LOOKAHEAD][..Len(bits, p)] == s[..Len(bits, p)];
    ValTake(s[..HUFF_LOOKAHEAD], Len(bits, p));
  }

  lemma {:induction false} ScanSkips(bits: seq<Byte>, s: seq<Bit>, l: nat, m: nat)
    requires |bits| == 17 && |s| >= 17 && 1 <= l <= m <= 17 && forall i :: l <= i < m ==> BitVal(s[..i]) > MaxCode(bits, i)
    ensures ScanLen(bits, s, l) == ScanLen(bits, s, m)
    decreases m - l
  {
    if l < m { ScanSkips(bits, s, l + 1, m); }
  }

  // The table and the bit-serial search agree on every bit string: an entry gives the code the search from length 1
  // finds, and no entry means that the search may as well start at length 9.
  lemma LookaheadAgrees(tbl: JHuffTbl, d: DDerived, s: seq<Bit>)
    requires tbl.Shaped() && GoodCounts(tbl.bits) && DerivedD(tbl, d) && |s| >= 17
    ensures BitVal(s[..HUFF_LOOKAHEAD]) < 256
    ensures var look := BitVal(s[..HUFF_LOOKAHEAD]);
      var nb := d.lookNbits[look];
      if nb != 0 then
        && nb <= HUFF_LOOKAHEAD && ScanLen(tbl.bits, s, 1) == nb
        && 0 <= BitVal(s[..nb]) + d.valoffset[nb] < 256
        && d.lookSym[look] == tbl.huffval[BitVal(s[..nb]) + d.valoffset[nb]]
      else ScanLen(tbl.bits, s, 1) == ScanLen(tbl.bits, s, HUFF_LOOKAHEAD + 1)
  {
    hide Code, Len, Matches, Kraft, Total;
    ValBound(s[..HUFF_LOOKAHEAD]);
    assert Pow2(8) == 256;
    var bits, look := tbl.bits, BitVal(s[..HUFF_LOOKAHEAD]);
    var n := Total(bits, HUFF_LOOKAHEAD);
    TotalGrows(bits, HUFF_LOOKAHEAD, 16);
    assert LookIs(tbl, n, look, d.lookNbits[look], d.lookSym[look]);
    if d.lookNbits[look] != 0 {
      var p :| 0 <= p < n && Matches(bits, p, look) && d.lookNbits[look] == Len(bits, p) && d.lookSym[look] == tbl.huffval[p];
      ShortCode(bits, p, look);
      StartsWith(bits, s, p);
      ScanFinds(bits, p, s, 1);
    } else {
      NoLongMatch(bits, look);
      NoMatchAbove(bits, s, HUFF_LOOKAHEAD);
      ScanSkips(bits, s, 1, HUFF_LOOKAHEAD + 1);
    }
  }

  lemma ShortCode(bits: seq<Byte>, p: nat, v: nat)
    requires |bits| == 17 && p < Total(bits, 16) && Matches(bits, p, v)
    ensures 1 <= Len(bits, p) <= HUFF_LOOKAHEAD && bits[Len(bits, p)] > 0
  {
  }

  lemma NoLongMatch(bits: seq<Byte>, v: nat)
    requires |bits| == 17 && Total(bits, HUFF_LOOKAHEAD) <= Total(bits, 16) && NoMatch(bits, Total(bits, HUFF_LOOKAHEAD), v)
    ensures NoMatch(bits, Total(bits, 16), v)
  {
    forall p | Total(bits, HUFF_LOOKAHEAD) <= p < Total(bits, 16)
      ensures !Matches(bits, p, v)
    {
      if Len(bits, p) <= HUFF_LOOKAHEAD { TotalGrows(bits, Len(bits, p), HUFF_LOOKAHEAD); }
    }
  }

  // The table finds a short code that the next 8 bits begin with.
  lemma LookaheadShort(tbl: JHuffTbl, d: DDerived, next: seq<Bit>, p: nat)
    requires tbl.Shaped() && GoodCounts(tbl.bits) && DerivedD(tbl, d) && |next| == HUFF_LOOKAHEAD
    requires p < Total(tbl.bits, 16) && Len(tbl.bits, p) <= HUFF_LOOKAHEAD
    requires BitVal(next[..Len(tbl.bits, p)]) == Code(tbl.bits, p)
    ensures BitVal(next) < 256
    ensures d.lookNbits[BitVal(next)] == Len(tbl.bits, p) && d.lookSym[BitVal(next)] == tbl.huffval[p]
  {
    hide Code, Len, Kraft, Total, LookReady;
    var l, zeros: seq<Bit> := Len(tbl.bits, p), seq(9, _ => 0);
    var s := next + zeros;
    assert s[..HUFF_LOOKAHEAD] == next && s[..l] == next[..l];
    LookaheadAgrees(tbl, d, s);
    ScanFinds(tbl.bits, p, s, 1);
    UsedLength(tbl.bits, p);
  }

  // It has no entry for the beginning of a longer code.
  lemma LookaheadLong(tbl: JHuffTbl, d: DDerived, code: seq<Bit>, p: nat)
    requires tbl.Shaped() && GoodCounts(tbl.bits) && DerivedD(tbl, d)
    requires p < Total(tbl.bits, 16) && |code| == Len(tbl.bits, p) > HUFF_LOOKAHEAD && BitVal(code) == Code(tbl.bits, p)
    ensures BitVal(code[..HUFF_LOOKAHEAD]) < 256 && d.lookNbits[BitVal(code[..HUFF_LOOKAHEAD])] == 0
  {
    hide Code, Len, Kraft, Total, LookReady, BitVal, MaxCode;
    var next, zeros: seq<Bit> := code[..HUFF_LOOKAHEAD], seq(9, _ => 0);
    var s := next + zeros;
    assert s[..HUFF_LOOKAHEAD] == next;
    LookaheadAgrees(tbl, d, s);
    forall m | 1 <= m < HUFF_LOOKAHEAD + 1
      ensures BitVal(s[..m]) > MaxCode(tbl.bits, m)
    {
      assert s[..m] == code[..m];
      assert code[..|code|] == code;
      CodeAbove(tbl.bits, p, code, m);
    }
    ScanSkips(tbl.bits, s, 1, HUFF_LOOKAHEAD + 1);
  }

  lemma UsedLength(bits: seq<Byte>, p: nat)
    requires |bits| == 17 && p < Total(bits, 16)
    ensures 1 <= Len(bits, p) <= 16 && bits[Len(bits, p)] > 0
  {
  }

  // Without an entry the next code is longer than the lookahead.
  lemma NoEntryAbove(tbl: JHuffTbl, d: DDerived, next: seq<Bit>)
    requires tbl.Shaped() && GoodCounts(tbl.bits) && DerivedD(tbl, d) && |next| == HUFF_LOOKAHEAD
    ensures BitVal(next) < 256
    ensures d.lookNbits[BitVal(next)] == 0 ==> Above(tbl.bits, next, HUFF_LOOKAHEAD)
    ensures d.lookNbits[BitVal(next)] <= HUFF_LOOKAHEAD
    ensures d.lookNbits[BitVal(next)] != 0 ==> Known(tbl, d.lookSym[BitVal(next)])
  {
    hide Code, Len, Kraft, Matches;
    ValBound(next);
    assert Pow2(8) == 256;
    var look := BitVal(next);
    assert next[..HUFF_LOOKAHEAD] == next;
    assert LookIs(tbl, Total(tbl.bits, HUFF_LOOKAHEAD), look, d.lookNbits[look], d.lookSym[look]);
    if d.lookNbits[look] == 0 {
      NoLongMatch(tbl.bits, look);
      NoMatchAbove(tbl.bits, next, HUFF_LOOKAHEAD);
    } else {
      var p :| 0 <= p < Total(tbl.bits, HUFF_LOOKAHEAD) && Matches(tbl.bits, p, look) && d.lookNbits[look] == Len(tbl.bits, p)
               && d.lookSym[look] == tbl.huffval[p];
      ShortCode(tbl.bits, p, look);
    }
  }

  // One bit more keeps a code value that has passed all shorter codes above them.
  lemma PassNext(bits: seq<Byte>, code: nat, l: nat, b: Bit)
    requires |bits| == 17 && 1 <= l <= 16 && code >= 2 * Kraft(bits, l - 1) && code > MaxCode(bits, l)
    ensures 2 * code + b >= 2 * Kraft(bits, l)
  {
  }

  // Where the search stops, the table leads to a symbol.
  lemma StopIndex(bits: seq<Byte>, code: nat, l: nat)
    requires GoodCounts(bits) && 1 <= l <= 16 && 2 * Kraft(bits, l - 1) <= code <= MaxCode(bits, l)
    ensures bits[l] > 0 && 0 <= code + ValOffset(bits, l) < Total(bits, 16) <= 256
  {
    TotalGrows(bits, l, 16);
  }
}
