// Where the fields of marker segments are (section B.2 of ITU-T T.81), in plain numbers.
module SegmentLayout {
  import opened Numbers
  import opened HuffTable
  import opened HuffTokens
  import opened MarkerBytes
  import Huff = HuffSegments
  import Quant = QuantSegments
  import Arith = ArithSegments
  import Frame = FrameSegments

  // The length field counts the parameters, itself included.
  ghost predicate CountsItself(body: seq<Byte>) { IsWord(body, 0, |body|) }

  // The number v is at this place, high byte first.
  predicate IsWord(b: seq<Byte>, at: nat, v: nat) {
    at + 1 < |b| && var high: nat, low: nat := b[at], b[at + 1]; v == 256 * high + low
  }

  lemma TwoSays(v: nat)
    requires v < 0x10000
    ensures IsWord(Two(v), 0, v)
  {
  }

  lemma BothSays(high: nat, low: nat)
    requires high < 16 && low < 16
    ensures Both(high, low) == 16 * high + low
  {
  }

  // Two-byte fields are in the order of their values.
  lemma BigEndian(v: nat, w: nat)
    requires v < w < 0x10000
    ensures Two(v)[0] < Two(w)[0] || (Two(v)[0] == Two(w)[0] && Two(v)[1] < Two(w)[1])
  {
  }

  // Table B.5: class and destination, a count for each length, the symbols.
  lemma DhtLayout(index: nat, isAc: bool, tbl: JHuffTbl)
    requires Huff.IsTable(index, tbl)
    ensures var b := Huff.DhtBody(index, isAc, tbl);
      && CountsItself(b) && b[2] == 16 * (if isAc then 1 else 0) + index
      && (forall l :: 1 <= l <= 16 ==> b[2 + l] == tbl.bits[l]) && b[19..] == tbl.huffval[..Total(tbl.bits, 16)]
  {
    TwoSays(Huff.InUse(tbl) + 19);
    hide Two;
  }

  // Value k of a table is v; the values start here.
  predicate QuantAt(b: seq<Byte>, start: nat, wide: bool, k: nat, v: nat) {
    if wide then IsWord(b, start + 2 * k, v) else start + k < |b| && b[start + k] == v
  }

  // Table B.4: precision, which is that of the largest value in use, and destination; the values in zigzag order.
  lemma DqtLayout(index: nat, q: seq<Quant.Quant>, order: seq<nat>, count: nat)
    requires Quant.IsQuant(index, q, order, count)
    ensures var b, wide := Quant.DqtBody(index, q, order, count), Quant.Wide(q, order, count);
      && CountsItself(b) && |b| == 3 + (if wide then 2 * count else count) && b[2] == (if wide then 16 + index else index)
      && forall k :: 0 <= k < count ==> QuantAt(b, 3, wide, k, q[order[k]])
  {
    var wide := Quant.Wide(q, order, count);
    hide Quant.Wide, QuantAt, Quant.Values, Two, Quant.IsQuant, Quant.GoodOrder;
    Quant.QuantFits(index, q, order, count);
    var values, body := Quant.Values(q, order, count, wide), Quant.QuantBytes(index, q, order, count);
    TwoSays(|body| + 2);
    var b := Two(|body| + 2) + body;
    assert b[3..] == values;
    forall k | 0 <= k < count
      ensures QuantAt(b, 3, wide, k, q[order[k]])
    {
      ValueAt(q, order, count, wide, k);
      QuantBehind(b, values, wide, k, q[order[k]]);
    }
  }

  lemma QuantBehind(b: seq<Byte>, values: seq<Byte>, wide: bool, k: nat, v: nat)
    requires |b| >= 3 && b[3..] == values && QuantAt(values, 0, wide, k, v)
    ensures QuantAt(b, 3, wide, k, v)
  {
    assert forall i :: 0 <= i < |values| ==> values[i] == b[3 + i];
  }

  lemma {:induction false} ValueAt(q: seq<Quant.Quant>, order: seq<nat>, n: nat, wide: bool, k: nat)
    requires |q| == 64 && k < n <= |order| && forall i :: 0 <= i < n ==> order[i] < 64 && (wide || q[order[i]] < 0x100)
    ensures QuantAt(Quant.Values(q, order, n, wide), 0, wide, k, q[order[k]])
  {
    if k < n - 1 { ValueAt(q, order, n - 1, wide, k); } else if wide { TwoSays(q[order[k]]); }
  }

  // Table B.6: destinations with their values, both limits of a DC table in one byte, the upper one in front.
  lemma DacLayout(c: Arith.Conditioning, u: Arith.InUse)
    requires c.Legal() && u.Shaped()
    ensures var b := Arith.DacBody(c, u);
      && CountsItself(b)
      && forall k :: 1 <= k && 2 * k + 1 < |b| ==> DacEntry(c, u, b[2 * k], b[2 * k + 1])
  {
    var es := Arith.Entries(c, u, Arith.NUM_ARITH_TBLS);
    TwoSays(2 * |es| + 2);
    hide Two, Arith.Bytes, Arith.Entries, DacEntry;
    var b := Arith.DacBody(c, u);
    assert b[2..] == Arith.Bytes(es);
    forall k | 1 <= k && 2 * k + 1 < |b|
      ensures DacEntry(c, u, b[2 * k], b[2 * k + 1])
    {
      BytesAt(es, k - 1);
      EntryAt(c, u, Arith.NUM_ARITH_TBLS, k - 1);
      PairBehind(b, 2 * (k - 1));
    }
  }

  lemma PairBehind(b: seq<Byte>, i: nat)
    requires i + 3 < |b|
    ensures b[2..][i] == b[i + 2] && b[2..][i + 1] == b[i + 3]
  {
  }

  ghost predicate DacEntry(c: Arith.Conditioning, u: Arith.InUse, index: Byte, val: Byte)
    requires c.Legal() && u.Shaped()
  {
    index < 32 && if index < 16 then u.dc[index] && val == 16 * c.dcU[index] + c.dcL[index] else u.ac[index - 16] && val == c.acK[index - 16]
  }

  lemma {:induction false} BytesAt(es: seq<Arith.Entry>, k: nat)
    requires k < |es|
    ensures Arith.Bytes(es)[2 * k] == es[k].index && Arith.Bytes(es)[2 * k + 1] == es[k].val
  {
    if k > 0 { BytesAt(es[1..], k - 1); }
  }

  lemma {:induction false} EntryAt(c: Arith.Conditioning, u: Arith.InUse, n: nat, k: nat)
    requires c.Legal() && u.Shaped() && n <= Arith.NUM_ARITH_TBLS && k < |Arith.Entries(c, u, n)|
    ensures DacEntry(c, u, Arith.Entries(c, u, n)[k].index, Arith.Entries(c, u, n)[k].val)
  {
    if k < |Arith.Entries(c, u, n - 1)| {
      EntryAt(c, u, n - 1, k);
    } else {
      BothSays(c.dcU[n - 1], c.dcL[n - 1]);
      hide Both;
    }
  }

  // Table B.2: precision, height, width, and for every component its identifier, sampling factors and quantization table.
  lemma SofLayout(f: Frame.FrameHeader)
    requires Frame.FitsSof(f)
    ensures var b, n := Frame.SofBody(f), |f.comps|;
      && CountsItself(b) && b[2] == f.precision && IsWord(b, 3, f.height) && IsWord(b, 5, f.width) && b[7] == n
      && forall i :: 0 <= i < n ==> b[8 + 3 * i] == f.comps[i].id && b[9 + 3 * i] == 16 * f.comps[i].h + f.comps[i].v && b[10 + 3 * i] == f.comps[i].quantTbl
  {
    TwoSays(3 * |f.comps| + 8);
    TwoSays(f.height);
    TwoSays(f.width);
    hide Two, Frame.CompsBytes;
    var b, comps := Frame.SofBody(f), Frame.CompsBytes(f.comps);
    assert b[8..] == comps;
    forall i | 0 <= i < |f.comps|
      ensures b[8 + 3 * i] == f.comps[i].id && b[9 + 3 * i] == 16 * f.comps[i].h + f.comps[i].v && b[10 + 3 * i] == f.comps[i].quantTbl
    {
      CompAt(f.comps, i);
      assert b[8 + 3 * i] == comps[3 * i] && b[9 + 3 * i] == comps[3 * i + 1] && b[10 + 3 * i] == comps[3 * i + 2];
    }
  }

  lemma {:induction false} CompAt(comps: seq<Frame.FrameComp>, i: nat)
    requires Frame.GoodComps(comps) && i < |comps|
    ensures var b := Frame.CompsBytes(comps);
      b[3 * i] == comps[i].id && b[3 * i + 1] == 16 * comps[i].h + comps[i].v && b[3 * i + 2] == comps[i].quantTbl
  {
    if i > 0 { CompAt(comps[1..], i - 1); } else { BothSays(comps[0].h, comps[0].v); }
  }

  // A component's tables in a scan header.
  predicate SpecAt(b: seq<Byte>, at: nat, id: Byte, dcTbl: nat, acTbl: nat) {
    at + 1 < |b| && b[at] == id && b[at + 1] == 16 * dcTbl + acTbl
  }

  // Table B.3: for every component its identifier and tables, those that the scan does not use as 0, then the scan's band and bits.
  lemma SosLayout(s: Frame.ScanHeader, frame: seq<Frame.FrameComp>)
    requires Frame.GoodScan(s, frame)
    ensures var b, n := Frame.SosBody(s, frame), |s.comps|;
      && CountsItself(b) && b[2] == n && b[3 + 2 * n] == s.ss && b[4 + 2 * n] == s.se && b[5 + 2 * n] == 16 * s.ah + s.al
      && forall i :: 0 <= i < n ==>
           SpecAt(b, 3 + 2 * i, frame[s.comps[i].ci].id, if s.ss == 0 && s.ah == 0 then s.comps[i].dcTbl else 0, if s.se != 0 then s.comps[i].acTbl else 0)
  {
    var n, used := |s.comps|, Frame.UsedAll(s, s.comps);
    hide Two, Both, Frame.SpecsBytes, SpecAt;
    TwoSays(2 * n + 6);
    BothSays(s.ah, s.al);
    var specs, head, tail := Frame.SpecsBytes(used, frame), Two(2 * n + 6) + [n], [s.ss, s.se, Both(s.ah, s.al)];
    assert Frame.SosBody(s, frame) == head + specs + tail;
    forall i | 0 <= i < n
      ensures SpecAt(head + specs + tail, 3 + 2 * i, frame[s.comps[i].ci].id,
                     if s.ss == 0 && s.ah == 0 then s.comps[i].dcTbl else 0, if s.se != 0 then s.comps[i].acTbl else 0)
    {
      assert used[i] == Frame.Used(s, s.comps[i]);
      SpecIn(used, frame, i);
      SpecBehind(head, specs, tail, 2 * i, frame[used[i].ci].id, used[i].dcTbl, used[i].acTbl);
    }
  }

  lemma SpecBehind(head: seq<Byte>, b: seq<Byte>, tail: seq<Byte>, at: nat, id: Byte, dcTbl: nat, acTbl: nat)
    requires SpecAt(b, at, id, dcTbl, acTbl)
    ensures SpecAt(head + b + tail, |head| + at, id, dcTbl, acTbl)
  {
  }

  lemma {:induction false} SpecIn(comps: seq<Frame.ScanComp>, frame: seq<Frame.FrameComp>, i: nat)
    requires Frame.GoodScanComps(comps, frame) && i < |comps|
    ensures SpecAt(Frame.SpecsBytes(comps, frame), 2 * i, frame[comps[i].ci].id, comps[i].dcTbl, comps[i].acTbl)
  {
    var first, rest := Frame.SpecBytes(comps[0], frame), Frame.SpecsBytes(comps[1..], frame);
    assert Frame.SpecsBytes(comps, frame) == first + rest && first + rest + [] == first + rest && [] + first + rest == first + rest;
    BothSays(comps[0].dcTbl, comps[0].acTbl);
    if i == 0 {
      SpecBehind([], first, rest, 0, frame[comps[0].ci].id, comps[0].dcTbl, comps[0].acTbl);
    } else {
      hide SpecAt, Both, Frame.SpecBytes, Frame.SpecsBytes;
      SpecIn(comps[1..], frame, i - 1);
      SpecBehind(first, rest, [], 2 * (i - 1), frame[comps[i].ci].id, comps[i].dcTbl, comps[i].acTbl);
    }
  }
}
