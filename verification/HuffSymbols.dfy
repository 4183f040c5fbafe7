// Which symbols a scan can use, and that it uses each of its tables (the statistics pass relies on both).
module HuffSymbols {
  import opened Numbers
  import opened ArithModel
  import opened Scans
  import opened HuffTokens
  import opened HuffEobRun
  import opened HuffValues
  import opened HuffAcFirst
  import opened HuffAcRefine
  import opened HuffDc
  import opened HuffBlock
  import opened HuffScan

  // A symbol is of one of these tables, its low four bits are a size, a DC symbol is only a size; no raw value is empty.
  predicate TameToken(tabs: set<nat>, x: Token) {
    match x
    case Sym(tbl, s) => tbl in tabs && s % 16 <= MAX_DIFF_BITS && (tbl < NUM_HUFF_TBLS ==> s <= MAX_DIFF_BITS)
    case Raw(v, n) => n != 0
  }

  ghost predicate Tame(tabs: set<nat>, ts: seq<Token>) {
    forall i :: 0 <= i < |ts| ==> TameToken(tabs, ts[i])
  }

  lemma TameConcat(tabs: set<nat>, a: seq<Token>, b: seq<Token>)
    ensures Tame(tabs, a + b) <==> Tame(tabs, a) && Tame(tabs, b)
  {
    hide TameToken;
    if Tame(tabs, a + b) {
      forall i | 0 <= i < |a|
        ensures TameToken(tabs, a[i])
      {
        assert (a + b)[i] == a[i];
      }
      forall i | 0 <= i < |b|
        ensures TameToken(tabs, b[i])
      {
        assert (a + b)[|a| + i] == b[i];
      }
    }
  }

  // Table t occurs.
  ghost predicate Uses(ts: seq<Token>, t: nat) {
    exists i :: 0 <= i < |ts| && ts[i].Sym? && ts[i].tbl == t
  }

  lemma UsesConcat(a: seq<Token>, b: seq<Token>, t: nat)
    ensures Uses(a, t) || Uses(b, t) ==> Uses(a + b, t)
  {
    if Uses(a, t) {
      var i :| 0 <= i < |a| && a[i].Sym? && a[i].tbl == t;
      assert (a + b)[i] == a[i];
    } else if Uses(b, t) {
      var i :| 0 <= i < |b| && b[i].Sym? && b[i].tbl == t;
      assert (a + b)[|a| + i] == b[i];
    }
  }

  lemma UsesFirst(ts: seq<Token>, t: nat)
    requires ts != [] && ts[0].Sym? && ts[0].tbl == t
    ensures Uses(ts, t)
  {
  }

  // The tables that start_pass sets up.
  ghost function NeededTables(sc: Scan): set<nat> {
    (set i | 0 <= i < |sc.comps| && CodesDc(sc.mode) :: DcTable(sc.comps[i].dcTbl))
    + set i | 0 <= i < |sc.comps| && NeedsAc(sc) :: AcTable(sc.comps[i].acTbl)
  }

  predicate IsAc(t: nat) { NUM_HUFF_TBLS <= t < 2 * NUM_HUFF_TBLS }

  // ----- DC and sequential blocks -----

  lemma DcSymbols(tabs: set<nat>, t: nat, diff: int)
    requires t < NUM_HUFF_TBLS && t in tabs && DiffInRange(diff)
    ensures Tame(tabs, DcTokens(t, diff)) && Uses(DcTokens(t, diff), t)
  {
    hide NumBits, ValueBits;
    UsesFirst(DcTokens(t, diff), t);
  }

  lemma CoefSymbols(tabs: set<nat>, t: nat, r: nat, v: int)
    requires IsAc(t) && t in tabs && v != 0 && NumBits(Abs(v)) <= MAX_COEF_BITS
    ensures Tame(tabs, CoefTokens(t, r, v)) && CoefTokens(t, r, v) != [] && CoefTokens(t, r, v)[0].Sym? && CoefTokens(t, r, v)[0].tbl == t
  {
    NonZeroBits(v);
    hide NumBits, ValueBits, TameToken;
    var n, q := NumBits(Abs(v)), r % 16;
    var two := [Sym(t, 16 * q + n), Raw(ValueBits(v, n), n)];
    TameConcat(tabs, Zrls(t, r / 16), two);
    TameSym(tabs, t, q, n);
    TameSym(tabs, t, 15, 0);
    TameRaw(tabs, ValueBits(v, n), n);
  }

  lemma TameSym(tabs: set<nat>, t: nat, q: nat, n: nat)
    requires IsAc(t) && t in tabs && q < 16 && n <= MAX_DIFF_BITS
    ensures TameToken(tabs, Sym(t, 16 * q + n))
  {
    SizeOf(q, n);
  }

  lemma TameRaw(tabs: set<nat>, v: nat, n: nat)
    requires n > 0
    ensures TameToken(tabs, Raw(v, n))
  {
  }

  lemma SizeOf(r: nat, n: nat)
    requires r < 16 && n < 16
    ensures (16 * r + n) % 16 == n
  {
  }

  lemma {:induction false} CoefsSymbols(tabs: set<nat>, t: nat, w: seq<int>, k: nat, r: nat, se: nat)
    requires |w| == 64 && se < 64 && InRange(w, k, se) && IsAc(t) && t in tabs
    ensures Tame(tabs, Coefs(t, w, k, r, se))
    ensures var c := Coefs(t, w, k, r, se); c != [] ==> c[0].Sym? && c[0].tbl == t
    ensures k <= se && w[se] != 0 ==> Coefs(t, w, k, r, se) != []
    decreases 64 - k
  {
    hide NumBits, CoefTokens, TameToken;
    if k <= se {
      if w[k] == 0 {
        CoefsSymbols(tabs, t, w, k + 1, r + 1, se);
      } else {
        CoefsSymbols(tabs, t, w, k + 1, 0, se);
        CoefSymbols(tabs, t, r, w[k]);
        TameConcat(tabs, CoefTokens(t, r, w[k]), Coefs(t, w, k + 1, 0, se));
      }
    }
  }

  lemma AcSymbols(tabs: set<nat>, t: nat, w: seq<int>, se: nat)
    requires |w| == 64 && se < 64 && InRange(w, 1, se) && IsAc(t) && t in tabs
    ensures Tame(tabs, AcTokens(t, w, se)) && (se > 0 ==> Uses(AcTokens(t, w, se), t))
  {
    hide Coefs, InRange;
    var end := if se > 0 && w[se] == 0 then [Sym(t, 0)] else [];
    CoefsSymbols(tabs, t, w, 1, 0, se);
    TameConcat(tabs, Coefs(t, w, 1, 0, se), end);
    UsesConcat(Coefs(t, w, 1, 0, se), end, t);
    if end != [] { UsesFirst(end, t); } else if se > 0 { UsesFirst(Coefs(t, w, 1, 0, se), t); }
  }

  lemma DcBlockSymbols(t: Tables, sc: Scan, last: seq<int>, ci: nat, block: seq<int>)
    requires GoodHuff(t, sc) && |last| == |sc.comps| && ci < |last| && |block| == 64
    requires BlockFits(t, sc, last, ci, block) && !CodesAc(sc.mode)
    ensures Tame(NeededTables(sc), DcBlock(t, sc, last, ci, block))
    ensures CodesDc(sc.mode) ==> Uses(DcBlock(t, sc, last, ci, block), DcTable(sc.comps[ci].dcTbl))
    ensures sc.mode == Sequential && sc.se > 0 ==> Uses(DcBlock(t, sc, last, ci, block), AcTable(sc.comps[ci].acTbl))
  {
    hide DcTokens, AcTokens, DiffInRange, InRange, Zigzag, Tame, Uses, IsOrder;
    var tbl, diff := sc.comps[ci], Diff(sc, last, ci, block);
    match sc.mode {
      case Sequential =>
        var w := Zigzag(block, t.order, 0);
        var dc, ac := DcTokens(DcTable(tbl.dcTbl), diff), AcTokens(AcTable(tbl.acTbl), w, sc.se);
        DcSymbols(NeededTables(sc), DcTable(tbl.dcTbl), diff);
        if sc.se > 0 { AcSymbols(NeededTables(sc), AcTable(tbl.acTbl), w, sc.se); } else { NoAc(AcTable(tbl.acTbl), w); }
        TameConcat(NeededTables(sc), dc, ac);
        UsesConcat(dc, ac, DcTable(tbl.dcTbl));
        UsesConcat(dc, ac, AcTable(tbl.acTbl));
      case DcFirst => DcSymbols(NeededTables(sc), DcTable(tbl.dcTbl), diff);
      case DcRefine => OneBit(NeededTables(sc), Shift(block[0], sc.al) % 2);
    }
  }

  lemma NoAc(t: nat, w: seq<int>)
    requires |w| == 64 && InRange(w, 1, 0)
    ensures AcTokens(t, w, 0) == [] && forall tabs :: Tame(tabs, AcTokens(t, w, 0))
  {
  }

  lemma NoneTame(tabs: set<nat>)
    ensures Tame(tabs, [])
  {
  }

  lemma OneBit(tabs: set<nat>, b: nat)
    ensures Tame(tabs, [Raw(b, 1)])
  {
  }

  lemma {:induction false} DcBlocksSymbols(t: Tables, sc: Scan, last: seq<int>, coefs: seq<int>, visits: seq<Visit>)
    requires GoodHuff(t, sc) && |last| == |sc.comps| && GoodVisits(sc, visits, |coefs|) && !CodesAc(sc.mode)
    requires AllFits(t, sc, last, coefs, visits)
    ensures Tame(NeededTables(sc), DcBlocks(t, sc, last, coefs, visits))
    ensures forall k :: 0 <= k < |visits| ==> UsesBoth(t, sc, DcBlocks(t, sc, last, coefs, visits), visits[k].ci)
    decreases |visits|
  {
    hide DcBlock, BlockFits, GoodScan, Tame, UsesBoth, NextLast;
    NoneTame(NeededTables(sc));
    if visits != [] {
      var v, b := visits[0], Block(coefs, visits[0].blk);
      var rest := DcBlocks(t, sc, NextLast(sc, last, v.ci, b), coefs, visits[1..]);
      DcBlockSymbols(t, sc, last, v.ci, b);
      DcBlocksSymbols(t, sc, NextLast(sc, last, v.ci, b), coefs, visits[1..]);
      TameConcat(NeededTables(sc), DcBlock(t, sc, last, v.ci, b), rest);
      forall k | 0 <= k < |visits|
        ensures UsesBoth(t, sc, DcBlocks(t, sc, last, coefs, visits), visits[k].ci)
      {
        if k > 0 { assert visits[k] == visits[1..][k - 1]; }
        EitherUses(t, sc, DcBlock(t, sc, last, v.ci, b), rest, visits[k].ci);
        if k == 0 { BothUsed(t, sc, last, v.ci, b); }
      }
    }
  }

  // The tables of component ci that the scan needs do occur.
  ghost predicate UsesBoth(t: Tables, sc: Scan, ts: seq<Token>, ci: nat)
    requires GoodHuff(t, sc) && ci < |sc.comps|
  {
    && (CodesDc(sc.mode) ==> Uses(ts, DcTable(sc.comps[ci].dcTbl)))
    && (NeedsAc(sc) ==> Uses(ts, AcTable(sc.comps[ci].acTbl)))
  }

  lemma BothUsed(t: Tables, sc: Scan, last: seq<int>, ci: nat, block: seq<int>)
    requires GoodHuff(t, sc) && |last| == |sc.comps| && ci < |last| && |block| == 64
    requires BlockFits(t, sc, last, ci, block) && !CodesAc(sc.mode)
    ensures UsesBoth(t, sc, DcBlock(t, sc, last, ci, block), ci)
  {
    hide DcBlock, BlockFits, GoodScan, Uses;
    DcBlockSymbols(t, sc, last, ci, block);
  }

  lemma EitherUses(t: Tables, sc: Scan, a: seq<Token>, b: seq<Token>, ci: nat)
    requires GoodHuff(t, sc) && ci < |sc.comps|
    ensures UsesBoth(t, sc, a, ci) || UsesBoth(t, sc, b, ci) ==> UsesBoth(t, sc, a + b, ci)
  {
    hide GoodScan, Uses;
    UsesConcat(a, b, DcTable(sc.comps[ci].dcTbl));
    UsesConcat(a, b, AcTable(sc.comps[ci].acTbl));
  }

  // ----- AC scans -----

  // The tokens before a block's end of band, all of table t.
  ghost predicate TameBand(tabs: set<nat>, b: AcBlock, t: nat) {
    b.Ok() && Tame(tabs, b.head) && (b.head != [] ==> b.head[0].Sym? && b.head[0].tbl == t)
  }

  lemma RawsTame(tabs: set<nat>, bits: seq<Bit>)
    ensures Tame(tabs, Raws(bits))
  {
  }

  lemma EobSymbols(tabs: set<nat>, t: nat, e: nat, bits: seq<Bit>)
    requires IsAc(t) && t in tabs && 0 < e <= MAX_EOBRUN
    ensures Tame(tabs, Eob(t, e, bits)) && Uses(Eob(t, e, bits), t)
  {
    RunLengthBits(e);
    hide NumBits, Pow2, Raws;
    RawsTame(tabs, bits);
    TameConcat(tabs, EobSymbol(t, e), Raws(bits));
    SizeOf(NumBits(e) - 1, 0);
    assert TameToken(tabs, EobSymbol(t, e)[0]);
    UsesFirst(EobSymbol(t, e), t);
    UsesConcat(EobSymbol(t, e), Raws(bits), t);
  }

  lemma NewCoefSymbols(tabs: set<nat>, t: nat, r: nat, v: int, br: seq<Bit>)
    requires IsAc(t) && t in tabs && r < 16
    ensures Tame(tabs, NewCoef(t, r, v) + Raws(br)) && Tame(tabs, [Sym(t, 0xF0)] + Raws(br))
  {
    hide Raws;
    RawsTame(tabs, br);
    SizeOf(r, 1);
    TameConcat(tabs, NewCoef(t, r, v), Raws(br));
    TameConcat(tabs, [Sym(t, 0xF0)], Raws(br));
  }

  lemma {:induction false} HeadSymbols(tabs: set<nat>, t: nat, a: seq<int>, k: nat, r: nat, br: seq<Bit>, eob: nat)
    requires eob < |a| && IsAc(t) && t in tabs
    ensures var h := NewHead(t, a, k, r, br, eob); Tame(tabs, h) && (h != [] ==> h[0].Sym? && h[0].tbl == t)
    decreases if k <= eob then eob + 1 - k else 0, r
  {
    hide Tame, Raws;
    NoneTame(tabs);
    if k <= eob {
      if a[k] == 0 {
        HeadSymbols(tabs, t, a, k + 1, r + 1, br, eob);
      } else if r > 15 {
        HeadSymbols(tabs, t, a, k, r - 16, [], eob);
        NewCoefSymbols(tabs, t, 0, 0, br);
        TameConcat(tabs, [Sym(t, 0xF0)] + Raws(br), NewHead(t, a, k, r - 16, [], eob));
      } else if Abs(a[k]) > 1 {
        HeadSymbols(tabs, t, a, k + 1, r, br + [Abs(a[k]) % 2], eob);
      } else {
        HeadSymbols(tabs, t, a, k + 1, 0, [], eob);
        NewCoefSymbols(tabs, t, r, a[k], br);
        TameConcat(tabs, NewCoef(t, r, a[k]) + Raws(br), NewHead(t, a, k + 1, 0, [], eob));
      }
    }
  }

  lemma BandSymbols(t: Tables, sc: Scan, block: seq<int>)
    requires GoodHuff(t, sc) && |block| == 64 && CodesAc(sc.mode)
    requires sc.mode == AcFirst ==> InRange(Zigzag(block, t.order, sc.al), sc.ss, sc.se)
    ensures TameBand(NeededTables(sc), BandOf(t, sc, block), TheTable(sc))
  {
    hide Tame, Coefs, NewHead, InRange, IsOrder, LastNew;
    BandOk(t, sc, block);
    var w := Zigzag(block, t.order, sc.al);
    if sc.mode == AcFirst {
      CoefsSymbols(NeededTables(sc), TheTable(sc), w, sc.ss, 0, sc.se);
    } else {
      HeadSymbols(NeededTables(sc), TheTable(sc), w, sc.ss, 0, [], LastNew(w, sc.ss, sc.se + 1));
    }
  }

  ghost predicate TameBands(tabs: set<nat>, bs: seq<AcBlock>, t: nat) {
    forall i :: 0 <= i < |bs| ==> TameBand(tabs, bs[i], t)
  }

  lemma {:induction false} StreamSymbols(tabs: set<nat>, t: nat, bs: seq<AcBlock>)
    requires IsAc(t) && t in tabs && TameBands(tabs, bs, t)
    ensures Tame(tabs, Stream(t, bs)) && (bs != [] ==> Uses(Stream(t, bs), t))
    decreases |bs|, 0
  {
    hide Tame, Eob, Full;
    NoneTame(tabs);
    if bs != [] {
      var b, more := bs[0], bs[1..];
      assert TameBand(tabs, b, t);
      var rest := if b.ends then FromRun(t, 1, b.tail, more) else Stream(t, more);
      if b.ends { RunSymbols(tabs, t, 1, b.tail, more); } else { StreamSymbols(tabs, t, more); }
      TameConcat(tabs, b.head, rest);
      UsesConcat(b.head, rest, t);
      if b.head != [] { UsesFirst(b.head, t); }
    }
  }

  lemma {:induction false} RunSymbols(tabs: set<nat>, t: nat, e: nat, bits: seq<Bit>, bs: seq<AcBlock>)
    requires IsAc(t) && t in tabs && TameBands(tabs, bs, t) && 0 < e <= MAX_EOBRUN
    ensures Tame(tabs, FromRun(t, e, bits, bs)) && Uses(FromRun(t, e, bits, bs), t)
    decreases |bs|, 1
  {
    hide Tame, Eob, Uses;
    if Full(e, |bits|) || bs == [] || bs[0].head != [] {
      EobSymbols(tabs, t, e, bits);
      StreamSymbols(tabs, t, bs);
      TameConcat(tabs, Eob(t, e, bits), Stream(t, bs));
      UsesConcat(Eob(t, e, bits), Stream(t, bs), t);
    } else {
      RunSymbols(tabs, t, e + 1, bits + bs[0].tail, bs[1..]);
    }
  }

  lemma {:induction false} BandsSymbols(t: Tables, sc: Scan, last: seq<int>, coefs: seq<int>, visits: seq<Visit>)
    requires GoodHuff(t, sc) && |last| == |sc.comps| && GoodVisits(sc, visits, |coefs|) && CodesAc(sc.mode)
    requires AllFits(t, sc, last, coefs, visits)
    ensures TameBands(NeededTables(sc), Bands(t, sc, last, coefs, visits), TheTable(sc))
    decreases |visits|
  {
    hide BandOf, TameBand, GoodScan, Zigzag, InRange;
    if visits != [] {
      BandSymbols(t, sc, Block(coefs, visits[0].blk));
      BandsSymbols(t, sc, last, coefs, visits[1..]);
    }
  }

  // ----- segments and scans -----

  lemma SegmentSymbols(t: Tables, sc: Scan, coefs: seq<int>, visits: seq<Visit>)
    requires GoodHuff(t, sc) && GoodVisits(sc, visits, |coefs|) && SegmentFits(t, sc, coefs, visits)
    ensures Tame(NeededTables(sc), SegmentTokens(t, sc, coefs, visits))
    ensures forall k :: 0 <= k < |visits| ==> UsesBoth(t, sc, SegmentTokens(t, sc, coefs, visits), visits[k].ci)
  {
    hide AllFits, Bands, DcBlocks, Tame, Uses, Stream, GoodScan, TameBands;
    if CodesAc(sc.mode) {
      BandsSymbols(t, sc, FreshLast(sc), coefs, visits);
      StreamSymbols(NeededTables(sc), TheTable(sc), Bands(t, sc, FreshLast(sc), coefs, visits));
    } else {
      DcBlocksSymbols(t, sc, FreshLast(sc), coefs, visits);
    }
  }

  // Component ci has a block in the first n segments.
  ghost predicate HasBlock(segments: seq<seq<Visit>>, n: nat, ci: nat)
    requires n <= |segments|
  {
    exists i :: 0 <= i < n && HasBlockIn(segments[i], ci)
  }

  ghost predicate HasBlockIn(visits: seq<Visit>, ci: nat) {
    exists k :: 0 <= k < |visits| && visits[k].ci == ci
  }

  lemma {:induction false} ScanSymbols(t: Tables, sc: Scan, coefs: seq<int>, segments: seq<seq<Visit>>, n: nat)
    requires GoodHuff(t, sc) && GoodSegments(sc, segments, |coefs|) && n <= |segments|
    requires forall i :: 0 <= i < n ==> SegmentFits(t, sc, coefs, segments[i])
    ensures Tame(NeededTables(sc), ScanTokens(t, sc, coefs, segments, n))
    ensures forall ci :: 0 <= ci < |sc.comps| && HasBlock(segments, n, ci) ==> UsesBoth(t, sc, ScanTokens(t, sc, coefs, segments, n), ci)
  {
    hide SegmentTokens, SegmentFits, Tame, UsesBoth, GoodHuff, GoodVisits;
    NoneTame(NeededTables(sc));
    if n > 0 {
      var before, last := ScanTokens(t, sc, coefs, segments, n - 1), SegmentTokens(t, sc, coefs, segments[n - 1]);
      ScanSymbols(t, sc, coefs, segments, n - 1);
      SegmentSymbols(t, sc, coefs, segments[n - 1]);
      TameConcat(NeededTables(sc), before, last);
      forall ci | 0 <= ci < |sc.comps| && HasBlock(segments, n, ci)
        ensures UsesBoth(t, sc, before + last, ci)
      {
        EitherUses(t, sc, before, last, ci);
      }
    }
  }
}
