// From the counts of a statistics pass to tables that have a code for every symbol of the scan.
module HuffOptimize {
  import opened Numbers
  import opened Scans
  import opened HuffTable
  import opened HuffTokens
  import opened HuffWriter
  import opened HuffLookup
  import opened HuffReader
  import opened HuffOrder
  import opened HuffMerge
  import opened HuffOptimal
  import opened HuffBlock
  import opened HuffMcu
  import opened HuffSymbols

  // ----- the counts of one table -----

  ghost function CountsOf(ts: seq<Token>, t: nat): (c: seq<nat>)
    ensures |c| == SYMBOLS && c[256] == 0 && forall s :: 0 <= s < 256 ==> c[s] == Count(ts, t, s)
  {
    seq(SYMBOLS, s requires 0 <= s < SYMBOLS => if s < 256 then Count(ts, t, s) else 0)
  }

  lemma {:induction false} NothingCounted(c: seq<nat>)
    requires forall i :: 0 <= i < |c| ==> c[i] == 0
    ensures Sum(c) == 0
  {
    if c != [] { NothingCounted(c[..|c| - 1]); }
  }

  // There are no more symbols than tokens.
  lemma {:induction false} TotalCount(ts: seq<Token>, t: nat)
    ensures Sum(CountsOf(ts, t)) <= |ts|
  {
    var c := CountsOf(ts, t);
    if ts == [] {
      NothingCounted(c);
    } else {
      var c1 := CountsOf(ts[1..], t);
      TotalCount(ts[1..], t);
      hide Sum, CountsOf;
      if ts[0].Sym? && ts[0].tbl == t {
        var s := ts[0].s;
        assert c == c1[s := c1[s] + 1];
        SumUpdate(c1, s, c1[s] + 1);
      } else {
        assert c == c1;
      }
    }
  }

  // How many of the first n bytes have low bits that can be a size.
  function Sizes(n: nat): nat {
    if n == 0 then 0 else Sizes(n - 1) + if (n - 1) % 16 <= 11 then 1 else 0
  }

  lemma {:induction false} SizesBound(q: nat, r: nat)
    requires r <= 16
    ensures Sizes(16 * q + r) == 12 * q + if r < 12 then r else 12
  {
    if r > 0 {
      SizesBound(q, r - 1);
      LowBits(q, r - 1);
    } else if q > 0 {
      SizesBound(q - 1, 16);
    }
  }

  lemma LowBits(q: nat, r: nat)
    requires r < 16
    ensures (16 * q + r) % 16 == r
  {
  }

  lemma {:induction false} LiveSizes(c: seq<nat>, n: nat)
    requires n <= |c| && n <= 256 && forall s :: 0 <= s < n && c[s] > 0 ==> s % 16 <= 11
    ensures Live(c[..n]) <= Sizes(n)
  {
    if n > 0 {
      LiveSizes(c, n - 1);
      assert c[..n][..n - 1] == c[..n - 1];
    }
  }

  // So few symbols are possible that the table always has room for them.
  lemma FewSymbols(tabs: set<nat>, ts: seq<Token>, t: nat)
    requires Tame(tabs, ts)
    ensures Live(CountsOf(ts, t)) <= 192
    ensures t < NUM_HUFF_TBLS ==> forall s :: 16 <= s < 256 ==> Count(ts, t, s) == 0
  {
    var c := CountsOf(ts, t);
    forall s | 0 <= s < 256 && Count(ts, t, s) > 0
      ensures s % 16 <= 11 && (t < NUM_HUFF_TBLS ==> s <= 11)
    {
      CountIn(ts, t, s);
      var i :| 0 <= i < |ts| && ts[i] == Sym(t, s);
      assert TameToken(tabs, ts[i]);
    }
    LiveSizes(c, 256);
    SizesBound(16, 0);
    assert c[..|c| - 1] == c[..256];
  }

  lemma SomeSymbol(ts: seq<Token>, t: nat) returns (s: nat)
    requires Uses(ts, t)
    ensures s < 256 && Count(ts, t, s) > 0
  {
    var i :| 0 <= i < |ts| && ts[i].Sym? && ts[i].tbl == t;
    s := ts[i].s;
    CountIn(ts, t, s);
  }

  // One call of jpeg_gen_optimal_table
  method OptimalTable(counts: seq<seq<nat>>, u: nat, ghost tabs: set<nat>, ghost ts: seq<Token>) returns (ok: bool, tbl: JHuffTbl)
    requires Counted(counts, true, ts) && Tame(tabs, ts) && u < 2 * NUM_HUFF_TBLS && Uses(ts, u) && |ts| <= LIMIT
    ensures ok ==> Optimal(CountsOf(ts, u)[256 := 1], tbl)
    ensures |ts| + 1 < LONG_CODE_TOTAL ==> ok
  {
    hide Sum, Live, Optimal, Tame, Uses;
    ghost var c := CountsOf(ts, u);
    ghost var s := SomeSymbol(ts, u);
    FewSymbols(tabs, ts, u);
    TotalCount(ts, u);
    var freq := new nat[SYMBOLS](i requires 0 <= i < SYMBOLS => counts[u][i]);
    assert freq[..] == c;
    ghost var lengths;
    ok, tbl, lengths := GenOptimalTable(freq, s);
  }

  // ----- finish_pass_gather -----

  ghost predicate HasOptimal(ts: seq<Token>, tbls: seq<JHuffTbl>, u: nat) {
    u < |tbls| && Optimal(CountsOf(ts, u)[256 := 1], tbls[u])
  }

  // The tables of the first n components are there.
  ghost function OptimalFor(sc: Scan, ts: seq<Token>, tbls: seq<JHuffTbl>, n: nat): (yes: bool)
    requires n <= |sc.comps|
    ensures yes ==> |tbls| == 2 * NUM_HUFF_TBLS && forall u :: 0 <= u < |tbls| ==> tbls[u].Shaped()
  {
    && |tbls| == 2 * NUM_HUFF_TBLS && (forall u :: 0 <= u < |tbls| ==> tbls[u].Shaped())
    && forall i :: 0 <= i < n ==>
         && (CodesDc(sc.mode) ==> HasOptimal(ts, tbls, DcTable(sc.comps[i].dcTbl)))
         && (NeedsAc(sc) ==> HasOptimal(ts, tbls, AcTable(sc.comps[i].acTbl)))
  }

  // Every table the scan needs was used.
  ghost predicate UsesAll(t: Tables, sc: Scan, ts: seq<Token>)
    requires GoodHuff(t, sc)
  {
    forall i :: 0 <= i < |sc.comps| ==> UsesBoth(t, sc, ts, i)
  }

  // Each table is optimized a single time, however many components share it.
  method OptimizeOnce(counts: seq<seq<nat>>, tbls: seq<JHuffTbl>, did: array<bool>, u: nat, ghost tabs: set<nat>, ghost ts: seq<Token>)
    returns (ok: bool, next: seq<JHuffTbl>)
    requires Counted(counts, true, ts) && Tame(tabs, ts) && u < 2 * NUM_HUFF_TBLS == |tbls| == did.Length && Uses(ts, u) && |ts| <= LIMIT
    requires forall v :: 0 <= v < did.Length && did[v] ==> HasOptimal(ts, tbls, v)
    requires forall v :: 0 <= v < |tbls| ==> tbls[v].Shaped()
    modifies did
    ensures |ts| + 1 < LONG_CODE_TOTAL ==> ok
    ensures ok ==> |next| == |tbls| && HasOptimal(ts, next, u) && forall v :: 0 <= v < |next| ==> next[v].Shaped()
    ensures ok ==> forall v :: 0 <= v < did.Length && did[v] ==> HasOptimal(ts, next, v)
    ensures ok ==> forall v :: 0 <= v < |next| && HasOptimal(ts, tbls, v) ==> HasOptimal(ts, next, v)
  {
    hide Counted, Tame, Uses, CountsOf;
    ok, next := true, tbls;
    if !did[u] {
      var tbl;
      ok, tbl := OptimalTable(counts, u, tabs, ts);
      if ok {
        next := tbls[u := tbl];
        did[u] := true;
      }
    }
  }

  // finish_pass_gather
  method FinishGather(t: Tables, sc: Scan, counts: seq<seq<nat>>, tbls: seq<JHuffTbl>, ghost ts: seq<Token>)
    returns (ok: bool, made: seq<JHuffTbl>)
    requires GoodHuff(t, sc) && Counted(counts, true, ts) && Tame(NeededTables(sc), ts) && UsesAll(t, sc, ts) && |ts| <= LIMIT
    requires |tbls| == 2 * NUM_HUFF_TBLS && forall u :: 0 <= u < |tbls| ==> tbls[u].Shaped()
    ensures |ts| + 1 < LONG_CODE_TOTAL ==> ok
    ensures ok ==> OptimalFor(sc, ts, made, |sc.comps|)
  {
    hide Counted, Tame, Uses, HasOptimal, GoodScan;
    var did := new bool[2 * NUM_HUFF_TBLS](_ => false);
    ok, made := true, tbls;
    var ci := 0;
    while ci < |sc.comps|
      invariant 0 <= ci <= |sc.comps| && ok && OptimalFor(sc, ts, made, ci)
      invariant forall v :: 0 <= v < did.Length && did[v] ==> HasOptimal(ts, made, v)
    {
      assert UsesBoth(t, sc, ts, ci);
      ghost var before := made;
      if sc.ss == 0 && sc.ah == 0 {
        ok, made := OptimizeOnce(counts, made, did, DcTable(sc.comps[ci].dcTbl), NeededTables(sc), ts);
        if !ok {
          return;
        }
      }
      if sc.se != 0 {
        ok, made := OptimizeOnce(counts, made, did, AcTable(sc.comps[ci].acTbl), NeededTables(sc), ts);
        if !ok {
          return;
        }
      }
      StillOptimal(sc, ts, before, made, ci);
      ci := ci + 1;
    }
  }

  lemma StillOptimal(sc: Scan, ts: seq<Token>, before: seq<JHuffTbl>, made: seq<JHuffTbl>, n: nat)
    requires n < |sc.comps| && OptimalFor(sc, ts, before, n) && |made| == |before| && forall u :: 0 <= u < |made| ==> made[u].Shaped()
    requires forall v :: 0 <= v < |made| && HasOptimal(ts, before, v) ==> HasOptimal(ts, made, v)
    requires CodesDc(sc.mode) ==> HasOptimal(ts, made, DcTable(sc.comps[n].dcTbl))
    requires NeedsAc(sc) ==> HasOptimal(ts, made, AcTable(sc.comps[n].acTbl))
    ensures OptimalFor(sc, ts, made, n + 1)
  {
    hide Optimal;
  }

  // ----- start_pass: the derived tables -----

  ghost predicate Fit(tbl: JHuffTbl, c: CDerived, isDC: bool) { GoodTable(tbl, isDC) && Derived(tbl, c) }

  ghost predicate CoderFor(sc: Scan, tbls: seq<JHuffTbl>, env: Env, n: nat)
    requires n <= |sc.comps|
  {
    && GoodEnv(env) && |env| == |tbls|
    && forall i :: 0 <= i < n ==> CoderForComp(sc, tbls, env, sc.comps[i])
  }

  ghost predicate CoderForComp(sc: Scan, tbls: seq<JHuffTbl>, env: Env, comp: Comp)
    requires |env| == |tbls|
  {
    && DcTable(comp.dcTbl) < |env| && AcTable(comp.acTbl) < |env|
    && (CodesDc(sc.mode) ==> Fit(tbls[DcTable(comp.dcTbl)], env[DcTable(comp.dcTbl)], true))
    && (NeedsAc(sc) ==> Fit(tbls[AcTable(comp.acTbl)], env[AcTable(comp.acTbl)], false))
  }

  // The coder takes the tables of every component.
  ghost predicate Usable(sc: Scan, tbls: seq<JHuffTbl>)
    requires |tbls| == 2 * NUM_HUFF_TBLS
  {
    forall i :: 0 <= i < |sc.comps| ==> CompUsable(sc, tbls, sc.comps[i])
  }

  ghost predicate CompUsable(sc: Scan, tbls: seq<JHuffTbl>, comp: Comp)
    requires |tbls| == 2 * NUM_HUFF_TBLS
  {
    && comp.dcTbl < NUM_HUFF_TBLS && comp.acTbl < NUM_HUFF_TBLS
    && (CodesDc(sc.mode) ==> GoodTable(tbls[DcTable(comp.dcTbl)], true))
    && (NeedsAc(sc) ==> GoodTable(tbls[AcTable(comp.acTbl)], false))
  }

  lemma DerivedGood(tbl: JHuffTbl, isDC: bool, d: CDerived)
    requires GoodTable(tbl, isDC) && Derived(tbl, d)
    ensures GoodDerived(d)
  {
    hide GoodCounts, SymbolsFit, SymbolsDiffer;
    forall s | 0 <= s < 256
      ensures d.ehufsi[s] <= 16 && (d.ehufsi[s] != 0 ==> d.ehufco[s] < Pow2(d.ehufsi[s]))
    {
      DerivedCodes(tbl, isDC, d, s);
    }
  }

  function NoTable(): (d: CDerived)
    ensures |d.ehufco| == |d.ehufsi| == 256 && forall s :: 0 <= s < 256 ==> d.ehufsi[s] == 0
  {
    CDerived(seq(256, _ => 0), seq(256, _ => 0))
  }

  function NoTables(): (env: Env)
    ensures |env| == 2 * NUM_HUFF_TBLS && forall u :: 0 <= u < |env| ==> env[u] == NoTable()
  {
    seq(2 * NUM_HUFF_TBLS, _ => NoTable())
  }

  lemma NoTablesGood()
    ensures GoodEnv(NoTables())
  {
  }

  // One derived table more, maybe in place of the same one.
  lemma CoderMore(sc: Scan, tbls: seq<JHuffTbl>, env: Env, n: nat, u: nat, c: CDerived, isDC: bool)
    requires n <= |sc.comps| && CoderFor(sc, tbls, env, n) && u < |env| == |tbls| && Fit(tbls[u], c, isDC)
    requires isDC <==> u < NUM_HUFF_TBLS
    ensures CoderFor(sc, tbls, env[u := c], n)
  {
    DerivedGood(tbls[u], isDC, c);
    hide Fit, GoodDerived;
    forall i | 0 <= i < n
      ensures CoderForComp(sc, tbls, env[u := c], sc.comps[i])
    {
      assert CoderForComp(sc, tbls, env, sc.comps[i]);
    }
  }

  // jpeg_make_c_derived_tbl for every table of the scan
  method StartCoder(t: Tables, sc: Scan, tbls: seq<JHuffTbl>) returns (ok: bool, env: Env)
    requires GoodHuff(t, sc) && |tbls| == 2 * NUM_HUFF_TBLS && forall u :: 0 <= u < |tbls| ==> tbls[u].Shaped()
    ensures ok <==> Usable(sc, tbls)
    ensures ok ==> CoderFor(sc, tbls, env, |sc.comps|)
  {
    hide GoodTable, Derived, GoodScan, GoodDerived, Fit;
    NoTablesGood();
    ok, env := true, NoTables();
    var ci := 0;
    while ci < |sc.comps|
      invariant 0 <= ci <= |sc.comps| && ok && CoderFor(sc, tbls, env, ci)
      invariant forall i :: 0 <= i < ci ==> CompUsable(sc, tbls, sc.comps[i])
    {
      var comp := sc.comps[ci];
      var d;
      if sc.ss == 0 && sc.ah == 0 {
        ok, d := MakeCDerivedTbl(tbls[DcTable(comp.dcTbl)], true);
        if !ok {
          Unusable(sc, tbls, ci);
          return;
        }
        FitsC(tbls[DcTable(comp.dcTbl)], d, true);
        CoderMore(sc, tbls, env, ci, DcTable(comp.dcTbl), d, true);
        env := env[DcTable(comp.dcTbl) := d];
      }
      if sc.se != 0 {
        ok, d := MakeCDerivedTbl(tbls[AcTable(comp.acTbl)], false);
        if !ok {
          Unusable(sc, tbls, ci);
          return;
        }
        FitsC(tbls[AcTable(comp.acTbl)], d, false);
        CoderMore(sc, tbls, env, ci, AcTable(comp.acTbl), d, false);
        env := env[AcTable(comp.acTbl) := d];
      }
      ci := ci + 1;
    }
  }

  lemma FitsC(tbl: JHuffTbl, c: CDerived, isDC: bool)
    requires GoodTable(tbl, isDC) && Derived(tbl, c)
    ensures Fit(tbl, c, isDC)
  {
  }

  lemma Unusable(sc: Scan, tbls: seq<JHuffTbl>, i: nat)
    requires |tbls| == 2 * NUM_HUFF_TBLS && i < |sc.comps| && !CompUsable(sc, tbls, sc.comps[i])
    ensures !Usable(sc, tbls)
  {
  }

  ghost predicate FitD(tbl: JHuffTbl, d: DDerived, isDC: bool) { GoodForDecoding(tbl, isDC) && DerivedD(tbl, d) }

  ghost predicate DecoderForComp(sc: Scan, dec: Decoding, comp: Comp)
    requires |dec.tbls| == |dec.derived|
  {
    && comp.dcTbl < NUM_HUFF_TBLS && DcTable(comp.dcTbl) < |dec.tbls| && AcTable(comp.acTbl) < |dec.tbls|
    && (CodesDc(sc.mode) ==> FitD(dec.tbls[DcTable(comp.dcTbl)], dec.derived[DcTable(comp.dcTbl)], true))
    && (NeedsAc(sc) ==> FitD(dec.tbls[AcTable(comp.acTbl)], dec.derived[AcTable(comp.acTbl)], false))
  }

  ghost predicate DecoderFor(sc: Scan, dec: Decoding, n: nat)
    requires n <= |sc.comps|
  {
    |dec.tbls| == |dec.derived| && forall i :: 0 <= i < n ==> DecoderForComp(sc, dec, sc.comps[i])
  }

  lemma DecoderMore(sc: Scan, dec: Decoding, n: nat, u: nat, d: DDerived, isDC: bool)
    requires n <= |sc.comps| && DecoderFor(sc, dec, n) && u < |dec.derived| && FitD(dec.tbls[u], d, isDC) && (isDC <==> u < NUM_HUFF_TBLS)
    ensures DecoderFor(sc, dec.(derived := dec.derived[u := d]), n)
  {
    hide FitD;
    forall i | 0 <= i < n
      ensures DecoderForComp(sc, dec.(derived := dec.derived[u := d]), sc.comps[i])
    {
      assert DecoderForComp(sc, dec, sc.comps[i]);
    }
  }

  // jpeg_make_d_derived_tbl for every table of the scan; a table that the coder takes, the decoder takes.
  method StartDecoder(t: Tables, sc: Scan, tbls: seq<JHuffTbl>) returns (ok: bool, dec: Decoding)
    requires GoodHuff(t, sc) && |tbls| == 2 * NUM_HUFF_TBLS && forall u :: 0 <= u < |tbls| ==> tbls[u].Shaped()
    ensures Usable(sc, tbls) ==> ok
    ensures ok ==> dec.tbls == tbls && DecoderFor(sc, dec, |sc.comps|)
  {
    hide GoodTable, GoodForDecoding, DerivedD, GoodScan, FitD;
    ok, dec := true, Decoding(tbls, seq(2 * NUM_HUFF_TBLS, _ => DDerived([], [], [], [])));
    var ci := 0;
    while ci < |sc.comps|
      invariant 0 <= ci <= |sc.comps| && ok && dec.tbls == tbls && DecoderFor(sc, dec, ci)
    {
      var comp := sc.comps[ci];
      var d;
      UsableComp(sc, tbls, ci);
      if sc.ss == 0 && sc.ah == 0 {
        ok, d := MakeDDerivedTbl(tbls[DcTable(comp.dcTbl)], true);
        if !ok {
          return;
        }
        FitsD(tbls[DcTable(comp.dcTbl)], d, true);
        DecoderMore(sc, dec, ci, DcTable(comp.dcTbl), d, true);
        dec := dec.(derived := dec.derived[DcTable(comp.dcTbl) := d]);
      }
      if sc.se != 0 {
        ok, d := MakeDDerivedTbl(tbls[AcTable(comp.acTbl)], false);
        if !ok {
          return;
        }
        FitsD(tbls[AcTable(comp.acTbl)], d, false);
        DecoderMore(sc, dec, ci, AcTable(comp.acTbl), d, false);
        dec := dec.(derived := dec.derived[AcTable(comp.acTbl) := d]);
      }
      ci := ci + 1;
    }
  }

  lemma FitsD(tbl: JHuffTbl, d: DDerived, isDC: bool)
    requires GoodForDecoding(tbl, isDC) && DerivedD(tbl, d)
    ensures FitD(tbl, d, isDC)
  {
  }

  lemma UsableComp(sc: Scan, tbls: seq<JHuffTbl>, i: nat)
    requires |tbls| == 2 * NUM_HUFF_TBLS && i < |sc.comps|
    ensures Usable(sc, tbls) && CodesDc(sc.mode) ==> GoodForDecoding(tbls[DcTable(sc.comps[i].dcTbl)], true)
    ensures Usable(sc, tbls) && NeedsAc(sc) ==> GoodForDecoding(tbls[AcTable(sc.comps[i].acTbl)], false)
  {
    hide GoodCounts, SymbolsFit, SymbolsDiffer;
    if Usable(sc, tbls) {
      assert CompUsable(sc, tbls, sc.comps[i]);
      CoderOrNot(tbls[DcTable(sc.comps[i].dcTbl)], true);
      CoderOrNot(tbls[AcTable(sc.comps[i].acTbl)], false);
    }
  }

  lemma CoderOrNot(tbl: JHuffTbl, isDC: bool)
    ensures GoodTable(tbl, isDC) ==> GoodForDecoding(tbl, isDC)
  {
    if GoodTable(tbl, isDC) { CoderImpliesDecoder(tbl, isDC); }
  }

  // The tables the decoder has built are all it needs, whoever coded the scan.
  lemma BuiltIsSetUp(t: Tables, sc: Scan, dec: Decoding)
    requires GoodHuff(t, sc) && |dec.tbls| == 2 * NUM_HUFF_TBLS && DecoderFor(sc, dec, |sc.comps|)
    ensures SetUp(sc, dec)
  {
    hide GoodScan, GoodCounts, DerivedD, SymbolsFit;
    forall i | 0 <= i < |sc.comps|
      ensures SetUpFor(sc, dec, sc.comps[i])
    {
      assert DecoderForComp(sc, dec, sc.comps[i]);
    }
  }

  // The coder's and the decoder's tables come from the same Huffman tables.
  lemma SameTables(t: Tables, sc: Scan, env: Env, dec: Decoding)
    requires GoodHuff(t, sc) && |dec.tbls| == 2 * NUM_HUFF_TBLS
    requires CoderFor(sc, dec.tbls, env, |sc.comps|) && DecoderFor(sc, dec, |sc.comps|)
    ensures HasTables(sc, env, dec)
  {
    BuiltIsSetUp(t, sc, dec);
    hide GoodScan, GoodTable, GoodForDecoding, Derived, DerivedD, SetUpFor;
    forall i | 0 <= i < |sc.comps|
      ensures TablesFor(sc, env, dec, sc.comps[i])
    {
      assert CoderForComp(sc, dec.tbls, env, sc.comps[i]) && DecoderForComp(sc, dec, sc.comps[i]);
      if CodesDc(sc.mode) {
        var u := DcTable(sc.comps[i].dcTbl);
        BothShare(dec.tbls[u], env[u], dec.derived[u], true);
      }
      if NeedsAc(sc) {
        var u := AcTable(sc.comps[i].acTbl);
        BothShare(dec.tbls[u], env[u], dec.derived[u], false);
      }
    }
  }

  lemma BothShare(tbl: JHuffTbl, c: CDerived, d: DDerived, isDC: bool)
    requires Fit(tbl, c, isDC) && FitD(tbl, d, isDC)
    ensures Shared(c, tbl, d)
  {
    DerivedGood(tbl, isDC, c);
  }

  // ----- what the tables of a statistics pass are good for -----

  // No counted symbol is beyond what a table may hold.
  lemma OptimalUsable(t: Tables, sc: Scan, ts: seq<Token>, tbls: seq<JHuffTbl>)
    requires GoodHuff(t, sc) && OptimalFor(sc, ts, tbls, |sc.comps|) && Tame(NeededTables(sc), ts)
    ensures Usable(sc, tbls)
  {
    hide GoodScan, Tame, Optimal, GoodTable;
    forall i | 0 <= i < |sc.comps|
      ensures CompUsable(sc, tbls, sc.comps[i])
    {
      var comp := sc.comps[i];
      if CodesDc(sc.mode) { OneUsable(NeededTables(sc), ts, tbls, DcTable(comp.dcTbl), true); }
      if NeedsAc(sc) { OneUsable(NeededTables(sc), ts, tbls, AcTable(comp.acTbl), false); }
    }
  }

  lemma OneUsable(tabs: set<nat>, ts: seq<Token>, tbls: seq<JHuffTbl>, u: nat, isDC: bool)
    requires HasOptimal(ts, tbls, u) && Tame(tabs, ts) && (isDC ==> u < NUM_HUFF_TBLS)
    ensures GoodTable(tbls[u], isDC)
  {
    hide Optimal, GoodTable, Tame;
    FewSymbols(tabs, ts, u);
    OptimalAccepted(CountsOf(ts, u)[256 := 1], tbls[u], isDC);
  }

  // With these tables, every symbol that was counted has a code.
  lemma OptimalCovers(t: Tables, sc: Scan, ts: seq<Token>, tbls: seq<JHuffTbl>, env: Env)
    requires GoodHuff(t, sc) && OptimalFor(sc, ts, tbls, |sc.comps|) && Tame(NeededTables(sc), ts)
    requires CoderFor(sc, tbls, env, |sc.comps|)
    ensures Codable(env, ts)
  {
    hide GoodScan, HasOptimal, Fit, GoodEnv, Count, CountsOf;
    forall j | 0 <= j < |ts|
      ensures HasCode(env, ts[j])
    {
      assert TameToken(NeededTables(sc), ts[j]);
      if ts[j].Sym? { SymbolCovered(t, sc, ts, tbls, env, j); }
    }
  }

  lemma SymbolCovered(t: Tables, sc: Scan, ts: seq<Token>, tbls: seq<JHuffTbl>, env: Env, j: nat)
    requires GoodHuff(t, sc) && OptimalFor(sc, ts, tbls, |sc.comps|) && CoderFor(sc, tbls, env, |sc.comps|)
    requires j < |ts| && ts[j].Sym? && ts[j].tbl in NeededTables(sc)
    ensures HasCode(env, ts[j])
  {
    hide GoodScan, HasOptimal, Fit, GoodDerived;
    var u := ts[j].tbl;
    if u in (set i | 0 <= i < |sc.comps| && CodesDc(sc.mode) :: DcTable(sc.comps[i].dcTbl)) {
      var i :| 0 <= i < |sc.comps| && CodesDc(sc.mode) && u == DcTable(sc.comps[i].dcTbl);
      assert CoderForComp(sc, tbls, env, sc.comps[i]);
      CodeThere(ts, tbls, env, u, j, true);
    } else {
      var i :| 0 <= i < |sc.comps| && NeedsAc(sc) && u == AcTable(sc.comps[i].acTbl);
      assert CoderForComp(sc, tbls, env, sc.comps[i]);
      CodeThere(ts, tbls, env, u, j, false);
    }
  }

  lemma CodeThere(ts: seq<Token>, tbls: seq<JHuffTbl>, env: Env, u: nat, j: nat, isDC: bool)
    requires GoodEnv(env) && |env| == |tbls| && HasOptimal(ts, tbls, u) && Fit(tbls[u], env[u], isDC)
    requires j < |ts| && ts[j].Sym? && ts[j].tbl == u
    ensures HasCode(env, ts[j])
  {
    hide Optimal, GoodTable, Derived, GoodDerived;
    var s := ts[j].s;
    CountIn(ts, u, s);
    assert Sym(u, s) == ts[j];
    OptimalCodes(CountsOf(ts, u)[256 := 1], tbls[u], isDC, env[u], s);
  }
}
