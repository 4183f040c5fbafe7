// DHT segments: a Huffman table written and read back.
module HuffSegments {
  import opened Numbers
  import opened HuffTable
  import opened HuffTokens
  import opened MarkerBytes

  const M_DHT: Byte := 0xC4

  // The symbols in use.
  function InUse(tbl: JHuffTbl): nat
    requires tbl.Shaped()
  {
    Total(tbl.bits, 16)
  }

  // The parameters of a segment with one table; AC tables have the higher index.
  function DhtBody(index: nat, isAc: bool, tbl: JHuffTbl): seq<Byte>
    requires tbl.Shaped() && InUse(tbl) <= 256 && index < NUM_HUFF_TBLS
  {
    Two(InUse(tbl) + 19) + [if isAc then index + 0x10 else index] + tbl.bits[1..17] + tbl.huffval[..InUse(tbl)]
  }

  // emit_dht, unless the table has been sent.
  method EmitDht(w: MarkerWriter, index: nat, isAc: bool, tbl: JHuffTbl, sent: bool) returns (nowSent: bool)
    requires tbl.Shaped() && InUse(tbl) <= 256 && index < NUM_HUFF_TBLS
    modifies w
    ensures nowSent && w.out == old(w.out) + (if sent then [] else [0xFF, M_DHT] + DhtBody(index, isAc, tbl))
  {
    if !sent {
      w.EmitMarker(M_DHT);
      var length: nat, i: nat := 0, 1;
      while i <= 16
        invariant 1 <= i <= 17 && length == Total(tbl.bits, i - 1)
      {
        length := length + tbl.bits[i];
        i := i + 1;
      }
      w.Emit2Bytes(length + 2 + 1 + 16);
      w.EmitByte(if isAc then index + 0x10 else index);
      w.EmitBytes(tbl.bits[1..17]);
      w.EmitBytes(tbl.huffval[..length]);
    }
    return true;
  }

  ghost predicate IsTable(index: nat, tbl: JHuffTbl) { index < NUM_HUFF_TBLS && tbl.Shaped() && InUse(tbl) <= 256 }

  ghost function TableBytes(index: nat, isAc: bool, tbl: JHuffTbl): seq<Byte>
    requires IsTable(index, tbl)
  {
    [if isAc then index + 0x10 else index] + tbl.bits[1..17] + tbl.huffval[..InUse(tbl)]
  }

  // Where the parts of a segment are.
  lemma Body(src: MarkerSource, at: nat, end: nat, index: nat, isAc: bool, tbl: JHuffTbl)
    requires IsTable(index, tbl) && src.Ahead(at, end, DhtBody(index, isAc, tbl))
    ensures at + 2 <= end <= |src.data| && Word(src.data[at], src.data[at + 1]) == InUse(tbl) + 19 && src.Ahead(at + 2, end, TableBytes(index, isAc, tbl))
  {
    var size := Two(InUse(tbl) + 19);
    assert DhtBody(index, isAc, tbl) == size + TableBytes(index, isAc, tbl);
    src.AheadPart(at, end, size, TableBytes(index, isAc, tbl));
    assert src.data[at] == src.data[at..at + 2][0] && src.data[at + 1] == src.data[at..at + 2][1];
  }

  lemma Parts(src: MarkerSource, at: nat, end: nat, index: nat, isAc: bool, tbl: JHuffTbl)
    requires IsTable(index, tbl) && src.Ahead(at, end, TableBytes(index, isAc, tbl))
    ensures end == at + 17 + InUse(tbl) && end <= |src.data| && src.data[at] == (if isAc then index + 0x10 else index)
    ensures src.data[at + 1..at + 17] == tbl.bits[1..17] && src.data[at + 17..end] == tbl.huffval[..InUse(tbl)]
  {
    var ix, counts, symbols := [if isAc then index + 0x10 else index], tbl.bits[1..17], tbl.huffval[..InUse(tbl)];
    assert TableBytes(index, isAc, tbl) == ix + (counts + symbols);
    src.AheadPart(at, end, ix, counts + symbols);
    src.AheadPart(at + 1, end, counts, symbols);
    assert src.data[at] == src.data[at..at + 1][0];
  }

  // The sum of the counts.
  method Sum(bits: seq<Byte>) returns (count: nat)
    requires |bits| == 17
    ensures count == Total(bits, 16)
  {
    count := 0;
    var i: nat := 1;
    while i <= 16
      invariant 1 <= i <= 17 && count == Total(bits, i - 1)
    {
      count := count + bits[i];
      i := i + 1;
    }
  }

  lemma {:induction false} SameTotal(a: seq<Byte>, b: seq<Byte>, l: nat)
    requires |a| == |b| == 17 && a[1..17] == b[1..17] && l <= 16
    ensures Total(a, l) == Total(b, l)
  {
    if l > 0 {
      SameTotal(a, b, l - 1);
      assert a[l] == a[1..17][l - 1] && b[l] == b[1..17][l - 1];
    }
  }

  lemma SameBits(bits: seq<Byte>, symbols: seq<Byte>, tbl: JHuffTbl, t: JHuffTbl)
    requires tbl.Shaped() && InUse(tbl) <= 256 && |bits| == 17 && bits[1..] == tbl.bits[1..17] && symbols == tbl.huffval[..InUse(tbl)]
    requires t.Shaped() && t.bits == bits && symbols <= t.huffval
    ensures SameTable(t, tbl)
  {
    assert t.huffval[..InUse(tbl)] == symbols;
  }

  // The decoder's tables, those not yet defined missing.
  datatype Slot = Missing | Defined(tbl: JHuffTbl)

  class HuffTables {
    var dc: seq<Slot>
    var ac: seq<Slot>

    constructor ()
      ensures Valid()
    {
      dc, ac := seq(NUM_HUFF_TBLS, _ => Missing), seq(NUM_HUFF_TBLS, _ => Missing);
    }

    predicate Valid()
      reads this
    {
      |dc| == |ac| == NUM_HUFF_TBLS
    }

    // One table of the segment, from place at on; length bytes of the segment are left.
    method GetTable(src: MarkerSource, at: nat, length: nat, ghost end: nat, ghost index: nat, ghost isAc: bool, ghost tbl: JHuffTbl)
      returns (got: Got, next: nat, left: nat)
      requires Valid() && src.Valid() && src.pos <= at <= src.avail && length >= 17
      modifies this
      ensures Valid() && (got == Done ==> at < next <= src.avail && left < length)
      ensures got == Suspended ==> dc == old(dc) && ac == old(ac)
      ensures IsTable(index, tbl) && length == InUse(tbl) + 17 && src.Ahead(at, end, TableBytes(index, isAc, tbl)) ==>
        if end <= src.avail then got == Done && next == end && left == 0 && Restored(old(dc), old(ac), index, isAc, tbl) else got == Suspended
    {
      next, left := at, length;
      ghost var sync := IsTable(index, tbl) && length == InUse(tbl) + 17 && src.Ahead(at, end, TableBytes(index, isAc, tbl));
      if sync { Parts(src, at, end, index, isAc, tbl); }
      hide MarkerSource.Ahead, TableBytes;
      var ok, ix, counts, symbols;
      ok, ix, next := src.InputByte(next);
      if !ok {
        return Suspended, next, left;
      }
      ok, counts, next := src.InputBytes(next, 16);
      if !ok {
        return Suspended, next, left;
      }
      var bits := [0] + counts;
      assert bits[1..17] == counts;
      if sync { SameTotal(bits, tbl.bits, 16); }
      var count := Sum(bits);
      left := left - (1 + 16);
      if count > 256 || count > left {
        return Failed, next, left;
      }
      ok, symbols, next := src.InputBytes(next, count);
      if !ok {
        return Suspended, next, left;
      }
      left := left - count;
      var t := JHuffTbl(bits, symbols + seq(256 - count, _ => 0));
      if ix / 0x10 % 2 == 1 {
        if ix - 0x10 >= NUM_HUFF_TBLS {
          return Failed, next, left;
        }
        ac := ac[ix - 0x10 := Defined(t)];
      } else {
        if ix >= NUM_HUFF_TBLS {
          return Failed, next, left;
        }
        dc := dc[ix := Defined(t)];
      }
      if sync { SameBits(bits, symbols, tbl, t); }
      return Done, next, left;
    }

    // get_dht
    method GetDht(src: MarkerSource, ghost index: nat, ghost isAc: bool, ghost tbl: JHuffTbl) returns (got: Got)
      requires Valid() && src.Valid()
      modifies this, src`pos
      ensures Valid() && src.Valid() && (got != Done ==> src.pos == old(src.pos))
      ensures IsTable(index, tbl) && old(src.Ahead(src.pos, src.pos + |DhtBody(index, isAc, tbl)|, DhtBody(index, isAc, tbl))) ==>
        var end := old(src.pos) + |DhtBody(index, isAc, tbl)|;
        if end <= src.avail then got == Done && src.pos == end && Restored(old(dc), old(ac), index, isAc, tbl)
        else got == Suspended && dc == old(dc) && ac == old(ac)
    {
      ghost var sync := IsTable(index, tbl) && src.Ahead(src.pos, src.pos + |DhtBody(index, isAc, tbl)|, DhtBody(index, isAc, tbl));
      ghost var end := if sync then src.pos + |DhtBody(index, isAc, tbl)| else 0;
      if sync { Body(src, src.pos, end, index, isAc, tbl); }
      hide MarkerSource.Ahead, TableBytes, DhtBody;
      var ok, total, next := src.Input2Bytes(src.pos);
      if !ok {
        return Suspended;
      }
      var size: int := total;
      var length := size - 2;
      ghost var first := true;
      while length > 16
        invariant Valid() && src.Valid() && src.pos == old(src.pos) && src.pos <= next <= src.avail
        invariant sync && first ==> length == InUse(tbl) + 17 && src.Ahead(next, end, TableBytes(index, isAc, tbl)) && dc == old(dc) && ac == old(ac)
        invariant sync && !first ==> length == 0 && next == end && Restored(old(dc), old(ac), index, isAc, tbl)
        decreases length
      {
        var left;
        got, next, left := GetTable(src, next, length, end, index, isAc, tbl);
        if got != Done {
          return;
        }
        length := left;
        first := false;
      }
      if length != 0 {
        return Failed;
      }
      src.pos := next;
      return Done;
    }

    // The table is there, all others are as they were.
    ghost predicate Restored(dc0: seq<Slot>, ac0: seq<Slot>, index: nat, isAc: bool, tbl: JHuffTbl)
      requires index < NUM_HUFF_TBLS && tbl.Shaped() && |dc0| == |ac0| == NUM_HUFF_TBLS && InUse(tbl) <= 256
      reads this
    {
      exists t: JHuffTbl :: t.Shaped() && SameTable(t, tbl)
        && dc == (if isAc then dc0 else dc0[index := Defined(t)]) && ac == if isAc then ac0[index := Defined(t)] else ac0
    }
  }

  // Counts and symbols are the same; places that have no symbol do not matter.
  ghost predicate SameTable(a: JHuffTbl, b: JHuffTbl)
    requires a.Shaped() && b.Shaped() && InUse(b) <= 256
  {
    a.bits[1..] == b.bits[1..] && a.huffval[..InUse(b)] == b.huffval[..InUse(b)]
  }
}
