// DAC segments: the conditioning of the arithmetic coder written and read back.
module ArithSegments {
  import opened Numbers
  import opened MarkerBytes

  const M_DAC: Byte := 0xCC
  const NUM_ARITH_TBLS := 16

  // arith_dc_L, arith_dc_U and arith_ac_K
  datatype Conditioning = Conditioning(dcL: seq<nat>, dcU: seq<nat>, acK: seq<Byte>) {
    ghost predicate Shaped() { |dcL| == |dcU| == |acK| == NUM_ARITH_TBLS }

    ghost predicate Legal() { Shaped() && forall i :: 0 <= i < NUM_ARITH_TBLS ==> dcL[i] <= dcU[i] < 0x10 }
  }

  // The tables in use.
  datatype InUse = InUse(dc: seq<bool>, ac: seq<bool>) {
    ghost predicate Shaped() { |dc| == |ac| == NUM_ARITH_TBLS }
  }

  // A component's table numbers in a scan.
  datatype Tables = Tables(dcTbl: nat, acTbl: nat)

  ghost predicate UsesDc(comps: seq<Tables>, i: nat) { exists k :: 0 <= k < |comps| && comps[k].dcTbl == i }

  ghost predicate UsesAc(comps: seq<Tables>, i: nat) { exists k :: 0 <= k < |comps| && comps[k].acTbl == i }

  // The first loop of emit_dac
  method FindInUse(comps: seq<Tables>, ss: nat, se: nat, ah: nat) returns (u: InUse)
    requires forall k :: 0 <= k < |comps| ==> comps[k].dcTbl < NUM_ARITH_TBLS && comps[k].acTbl < NUM_ARITH_TBLS
    ensures u.Shaped() && forall i :: 0 <= i < NUM_ARITH_TBLS ==>
      && (u.dc[i] <==> ss == 0 && ah == 0 && UsesDc(comps, i)) && (u.ac[i] <==> se != 0 && UsesAc(comps, i))
  {
    var dc, ac := seq(NUM_ARITH_TBLS, _ => false), seq(NUM_ARITH_TBLS, _ => false);
    var k := 0;
    while k < |comps|
      invariant 0 <= k <= |comps| && |dc| == |ac| == NUM_ARITH_TBLS
      invariant forall i :: 0 <= i < NUM_ARITH_TBLS ==> (dc[i] <==> ss == 0 && ah == 0 && UsesDc(comps[..k], i))
      invariant forall i :: 0 <= i < NUM_ARITH_TBLS ==> (ac[i] <==> se != 0 && UsesAc(comps[..k], i))
    {
      assert comps[..k + 1] == comps[..k] + [comps[k]];
      forall i | 0 <= i < NUM_ARITH_TBLS
        ensures UsesDc(comps[..k + 1], i) <==> UsesDc(comps[..k], i) || comps[k].dcTbl == i
        ensures UsesAc(comps[..k + 1], i) <==> UsesAc(comps[..k], i) || comps[k].acTbl == i
      {
        UsesMore(comps[..k], comps[k], i);
      }
      if ss == 0 && ah == 0 {
        dc := dc[comps[k].dcTbl := true];
      }
      if se != 0 {
        ac := ac[comps[k].acTbl := true];
      }
      k := k + 1;
    }
    assert comps[..k] == comps;
    u := InUse(dc, ac);
  }

  lemma UsesMore(comps: seq<Tables>, c: Tables, i: nat)
    ensures UsesDc(comps + [c], i) <==> UsesDc(comps, i) || c.dcTbl == i
    ensures UsesAc(comps + [c], i) <==> UsesAc(comps, i) || c.acTbl == i
  {
    var more := comps + [c];
    assert more[|comps|] == c;
    if UsesDc(comps, i) {
      var k :| 0 <= k < |comps| && comps[k].dcTbl == i;
      assert more[k].dcTbl == i;
    }
    if UsesAc(comps, i) {
      var k :| 0 <= k < |comps| && comps[k].acTbl == i;
      assert more[k].acTbl == i;
    }
  }

  // ----- the entries of a segment -----

  // A table's number, 16 more for an AC table, and its value.
  datatype Entry = Entry(index: Byte, val: Byte)

  ghost function EntriesOf(c: Conditioning, u: InUse, i: nat): seq<Entry>
    requires c.Legal() && u.Shaped() && i < NUM_ARITH_TBLS
  {
    (if u.dc[i] then [Entry(i, Both(c.dcU[i], c.dcL[i]))] else []) + if u.ac[i] then [Entry(i + 0x10, c.acK[i])] else []
  }

  ghost function Entries(c: Conditioning, u: InUse, n: nat): (es: seq<Entry>)
    requires c.Legal() && u.Shaped() && n <= NUM_ARITH_TBLS
    ensures |es| <= 2 * n
  {
    if n == 0 then [] else Entries(c, u, n - 1) + EntriesOf(c, u, n - 1)
  }

  ghost function Bytes(es: seq<Entry>): (b: seq<Byte>)
    ensures |b| == 2 * |es|
  {
    if es == [] then [] else [es[0].index, es[0].val] + Bytes(es[1..])
  }

  lemma {:induction false} BytesConcat(a: seq<Entry>, b: seq<Entry>)
    ensures Bytes(a + b) == Bytes(a) + Bytes(b)
  {
    if a == [] {
      assert a + b == b;
    } else {
      assert (a + b)[1..] == a[1..] + b;
      BytesConcat(a[1..], b);
    }
  }

  ghost function DacBody(c: Conditioning, u: InUse): seq<Byte>
    requires c.Legal() && u.Shaped()
  {
    Two(2 * |Entries(c, u, NUM_ARITH_TBLS)| + 2) + Bytes(Entries(c, u, NUM_ARITH_TBLS))
  }

  // How many entries the first n tables make.
  method CountEntries(u: InUse, ghost c: Conditioning) returns (length: nat)
    requires c.Legal() && u.Shaped()
    ensures length == |Entries(c, u, NUM_ARITH_TBLS)|
  {
    length := 0;
    var i := 0;
    while i < NUM_ARITH_TBLS
      invariant 0 <= i <= NUM_ARITH_TBLS && length == |Entries(c, u, i)|
    {
      length := length + (if u.dc[i] then 1 else 0) + if u.ac[i] then 1 else 0;
      i := i + 1;
    }
  }

  // emit_dac
  method EmitDac(w: MarkerWriter, c: Conditioning, comps: seq<Tables>, ss: nat, se: nat, ah: nat) returns (u: InUse)
    requires c.Legal() && forall k :: 0 <= k < |comps| ==> comps[k].dcTbl < NUM_ARITH_TBLS && comps[k].acTbl < NUM_ARITH_TBLS
    modifies w
    ensures u.Shaped() && w.out == old(w.out) + ([0xFF, M_DAC] + DacBody(c, u))
    ensures forall i :: 0 <= i < NUM_ARITH_TBLS ==>
      && (u.dc[i] <==> ss == 0 && ah == 0 && UsesDc(comps, i)) && (u.ac[i] <==> se != 0 && UsesAc(comps, i))
  {
    u := FindInUse(comps, ss, se, ah);
    var length := CountEntries(u, c);
    hide Bytes, Two, UsesDc, UsesAc;
    w.EmitMarker(M_DAC);
    w.Emit2Bytes(length * 2 + 2);
    EmitTables(w, c, u);
    Grouped(old(w.out), [0xFF, M_DAC], Two(length * 2 + 2), Bytes(Entries(c, u, NUM_ARITH_TBLS)));
  }

  lemma Grouped(a: seq<Byte>, b: seq<Byte>, c: seq<Byte>, d: seq<Byte>)
    ensures a + b + c + d == a + (b + (c + d))
  {
  }

  method EmitTables(w: MarkerWriter, c: Conditioning, u: InUse)
    requires c.Legal() && u.Shaped()
    modifies w
    ensures w.out == old(w.out) + Bytes(Entries(c, u, NUM_ARITH_TBLS))
  {
    var i := 0;
    while i < NUM_ARITH_TBLS
      invariant 0 <= i <= NUM_ARITH_TBLS && w.out == old(w.out) + Bytes(Entries(c, u, i))
    {
      hide Bytes, EntriesOf, Conditioning.Legal;
      EmitEntries(w, c, u, i);
      BytesConcat(Entries(c, u, i), EntriesOf(c, u, i));
      MovesOn(old(w.out), Bytes(Entries(c, u, i)), Bytes(EntriesOf(c, u, i)), []);
      i := i + 1;
    }
  }

  method EmitEntry(w: MarkerWriter, index: Byte, val: Byte)
    modifies w
    ensures w.out == old(w.out) + Bytes([Entry(index, val)])
  {
    assert [Entry(index, val)][1..] == [] && Bytes([]) == [];
    w.EmitByte(index);
    w.EmitByte(val);
  }

  method EmitEntries(w: MarkerWriter, c: Conditioning, u: InUse, i: nat)
    requires c.Legal() && u.Shaped() && i < NUM_ARITH_TBLS
    modifies w
    ensures w.out == old(w.out) + Bytes(EntriesOf(c, u, i))
  {
    assert Bytes([]) == [];
    assert Both(c.dcU[i], c.dcL[i]) == c.dcL[i] + 0x10 * c.dcU[i];
    hide Both, Low, High, Bytes;
    ghost var dc, ac := Entry(i, Both(c.dcU[i], c.dcL[i])), Entry(i + 0x10, c.acK[i]);
    BytesConcat([dc], [ac]);
    MovesOn(w.out, Bytes([dc]), Bytes([ac]), []);
    assert [dc] + [] == [dc] && [] + [ac] == [ac];
    if u.dc[i] {
      EmitEntry(w, i, c.dcL[i] + 0x10 * c.dcU[i]);
    }
    if u.ac[i] {
      EmitEntry(w, i + 0x10, c.acK[i]);
    }
  }

  // ----- reading -----

  // What an entry defines.
  ghost function Defined(c: Conditioning, e: Entry): Conditioning
    requires c.Shaped() && e.index < 2 * NUM_ARITH_TBLS
  {
    if e.index >= NUM_ARITH_TBLS then c.(acK := c.acK[e.index - NUM_ARITH_TBLS := e.val])
    else c.(dcL := c.dcL[e.index := Low(e.val)], dcU := c.dcU[e.index := High(e.val)])
  }

  ghost predicate GoodEntries(es: seq<Entry>) {
    forall k :: 0 <= k < |es| ==> es[k].index < 2 * NUM_ARITH_TBLS && (es[k].index < NUM_ARITH_TBLS ==> Low(es[k].val) <= High(es[k].val))
  }

  ghost function DefinedAll(c: Conditioning, es: seq<Entry>): (r: Conditioning)
    requires c.Shaped() && GoodEntries(es)
    ensures r.Shaped()
    decreases |es|
  {
    if es == [] then c else DefinedAll(Defined(c, es[0]), es[1..])
  }

  lemma {:induction false} DefinedConcat(c: Conditioning, a: seq<Entry>, b: seq<Entry>)
    requires c.Shaped() && GoodEntries(a) && GoodEntries(b)
    ensures GoodEntries(a + b) && DefinedAll(c, a + b) == DefinedAll(DefinedAll(c, a), b)
    decreases |a|
  {
    hide Low, High;
    if a == [] {
      assert a + b == b;
    } else {
      assert (a + b)[1..] == a[1..] + b;
      DefinedConcat(Defined(c, a[0]), a[1..], b);
    }
  }

  // The values in use are those of the coder, all others as they were.
  ghost predicate Restored(now: Conditioning, was: Conditioning, c: Conditioning, u: InUse, n: nat)
    requires now.Shaped() && was.Shaped() && c.Shaped() && u.Shaped() && n <= NUM_ARITH_TBLS
  {
    forall i :: 0 <= i < NUM_ARITH_TBLS ==>
      && (if i < n && u.dc[i] then now.dcL[i] == c.dcL[i] && now.dcU[i] == c.dcU[i] else now.dcL[i] == was.dcL[i] && now.dcU[i] == was.dcU[i])
      && now.acK[i] == if i < n && u.ac[i] then c.acK[i] else was.acK[i]
  }

  lemma {:induction false} EntriesRestore(was: Conditioning, c: Conditioning, u: InUse, n: nat)
    requires was.Shaped() && c.Legal() && u.Shaped() && n <= NUM_ARITH_TBLS
    ensures GoodEntries(Entries(c, u, n)) && Restored(DefinedAll(was, Entries(c, u, n)), was, c, u, n)
  {
    hide Low, High, Both, GoodEntries, DefinedAll, EntriesOf, Restored, Set;
    if n == 0 {
      NoEntries(was, c, u);
    } else {
      var es, more := Entries(c, u, n - 1), EntriesOf(c, u, n - 1);
      EntriesRestore(was, c, u, n - 1);
      TableRestores(DefinedAll(was, es), c, u, n - 1);
      DefinedConcat(was, es, more);
      RestoredNext(DefinedAll(was, es), was, c, u, n - 1);
    }
  }

  lemma NoEntries(was: Conditioning, c: Conditioning, u: InUse)
    requires was.Shaped() && c.Shaped() && u.Shaped()
    ensures GoodEntries([]) && Restored(DefinedAll(was, []), was, c, u, 0)
  {
  }

  // An entry set, if it is to be.
  function Set<T>(s: seq<T>, i: nat, v: T, on: bool): (r: seq<T>)
    requires i < |s|
    ensures |r| == |s| && forall k :: 0 <= k < |s| ==> r[k] == if on && k == i then v else s[k]
  {
    if on then s[i := v] else s
  }

  lemma RestoredNext(now: Conditioning, was: Conditioning, c: Conditioning, u: InUse, i: nat)
    requires now.Shaped() && was.Shaped() && c.Shaped() && u.Shaped() && i < NUM_ARITH_TBLS && Restored(now, was, c, u, i)
    ensures Restored(Conditioning(Set(now.dcL, i, c.dcL[i], u.dc[i]), Set(now.dcU, i, c.dcU[i], u.dc[i]), Set(now.acK, i, c.acK[i], u.ac[i])), was, c, u, i + 1)
  {
    hide Set;
  }

  lemma TableRestores(now: Conditioning, c: Conditioning, u: InUse, i: nat)
    requires now.Shaped() && c.Legal() && u.Shaped() && i < NUM_ARITH_TBLS
    ensures GoodEntries(EntriesOf(c, u, i))
    ensures DefinedAll(now, EntriesOf(c, u, i))
      == Conditioning(Set(now.dcL, i, c.dcL[i], u.dc[i]), Set(now.dcU, i, c.dcU[i], u.dc[i]), Set(now.acK, i, c.acK[i], u.ac[i]))
  {
    var es := EntriesOf(c, u, i);
    if |es| == 2 {
      assert [es[0]] + [es[1]] == es;
      DefinedOne(now, es[0]);
      DefinedOne(Defined(now, es[0]), es[1]);
      DefinedConcat(now, [es[0]], [es[1]]);
    } else if |es| == 1 {
      assert es == [es[0]];
      DefinedOne(now, es[0]);
    }
  }

  lemma DefinedOne(c: Conditioning, e: Entry)
    requires c.Shaped() && GoodEntries([e])
    ensures DefinedAll(c, [e]) == Defined(c, e)
  {
    assert [e][0] == e && [e][1..] == [];
  }

  lemma EntryAhead(src: MarkerSource, at: nat, end: nat, es: seq<Entry>)
    requires es != [] && src.Ahead(at, end, Bytes(es))
    ensures at + 2 <= end <= |src.data| && src.data[at] == es[0].index && src.data[at + 1] == es[0].val && src.Ahead(at + 2, end, Bytes(es[1..]))
  {
    var head := [es[0].index, es[0].val];
    src.AheadPart(at, end, head, Bytes(es[1..]));
    assert src.data[at..at + 2][0] == src.data[at] == head[0] && src.data[at..at + 2][1] == src.data[at + 1] == head[1];
  }

  lemma BodyAhead(src: MarkerSource, at: nat, end: nat, c: Conditioning, u: InUse)
    requires c.Legal() && u.Shaped() && src.Ahead(at, end, DacBody(c, u))
    ensures var es := Entries(c, u, NUM_ARITH_TBLS);
      at + 2 <= end <= |src.data| && Word(src.data[at], src.data[at + 1]) == 2 * |es| + 2 && src.Ahead(at + 2, end, Bytes(es))
  {
    var es := Entries(c, u, NUM_ARITH_TBLS);
    var size := Two(2 * |es| + 2);
    src.AheadPart(at, end, size, Bytes(es));
    assert src.data[at] == src.data[at..at + 2][0] && src.data[at + 1] == src.data[at..at + 2][1];
  }

  class Reader {
    var cond: Conditioning

    constructor (cond: Conditioning)
      ensures this.cond == cond
    {
      this.cond := cond;
    }

    // One entry: an index or a value out of range is an error.
    method GetEntry(src: MarkerSource, at: nat, ghost end: nat, ghost es: seq<Entry>, ghost sync: bool) returns (got: Got, next: nat)
      requires cond.Shaped() && src.Valid() && src.pos <= at <= src.avail
      requires sync ==> es != [] && GoodEntries(es) && src.Ahead(at, end, Bytes(es))
      modifies this
      ensures cond.Shaped() && (got == Done ==> next == at + 2 <= src.avail)
      ensures sync ==> if at + 2 <= src.avail then got == Done && cond == Defined(old(cond), es[0]) && src.Ahead(next, end, Bytes(es[1..])) else got == Suspended
    {
      if sync { EntryAhead(src, at, end, es); }
      hide Bytes, MarkerSource.Ahead, Low, High;
      var ok, index, val;
      ok, index, next := src.InputByte(at);
      if !ok { return Suspended, next; }
      ok, val, next := src.InputByte(next);
      if !ok { return Suspended, next; }
      if index >= 2 * NUM_ARITH_TBLS {
        return Failed, next;
      }
      if index >= NUM_ARITH_TBLS {
        cond := cond.(acK := cond.acK[index - NUM_ARITH_TBLS := val]);
      } else {
        cond := cond.(dcL := cond.dcL[index := Low(val)], dcU := cond.dcU[index := High(val)]);
        if cond.dcL[index] > cond.dcU[index] {
          return Failed, next;
        }
      }
      return Done, next;
    }

    // get_dac
    method GetDac(src: MarkerSource, ghost c: Conditioning, ghost u: InUse) returns (got: Got)
      requires cond.Shaped() && src.Valid()
      modifies this, src`pos
      ensures cond.Shaped() && src.Valid() && (got != Done ==> src.pos == old(src.pos))
      ensures c.Legal() && u.Shaped() && old(src.Ahead(src.pos, src.pos + |DacBody(c, u)|, DacBody(c, u))) ==>
        var end := old(src.pos) + |DacBody(c, u)|;
        if end <= src.avail then got == Done && src.pos == end && Restored(cond, old(cond), c, u, NUM_ARITH_TBLS) else got == Suspended
    {
      ghost var sync := c.Legal() && u.Shaped() && src.Ahead(src.pos, src.pos + |DacBody(c, u)|, DacBody(c, u));
      ghost var end := if sync then src.pos + |DacBody(c, u)| else 0;
      ghost var es := if sync then Entries(c, u, NUM_ARITH_TBLS) else [];
      if sync {
        BodyAhead(src, src.pos, end, c, u);
        EntriesRestore(cond, c, u, NUM_ARITH_TBLS);
        assert end == src.pos + 2 + 2 * |es|;
      }
      hide Bytes, MarkerSource.Ahead, DacBody, GoodEntries, Restored, Word;
      var ok, total, next := src.Input2Bytes(src.pos);
      if !ok {
        return Suspended;
      }
      var whole: int := total;
      var length := whole - 2;
      ghost var left := es;
      while length > 0
        invariant cond.Shaped() && src.Valid() && src.pos == old(src.pos) && src.pos <= next <= src.avail
        invariant sync ==> GoodEntries(left) && length == 2 * |left| && next + length == end && src.Ahead(next, end, Bytes(left))
        invariant sync ==> DefinedAll(cond, left) == DefinedAll(old(cond), es)
        decreases length
      {
        got, next := GetEntry(src, next, end, left, sync);
        if got != Done {
          return;
        }
        length := length - 2;
        if sync {
          RestGood(left);
          left := left[1..];
        }
      }
      if length != 0 {
        return Failed;
      }
      src.pos := next;
      return Done;
    }
  }

  lemma RestGood(es: seq<Entry>)
    requires es != [] && GoodEntries(es)
    ensures GoodEntries(es[1..])
  {
  }
}
