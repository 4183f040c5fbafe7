// DQT segments: a quantization table written and read back, of 8 or 16 bits, whole or for reduced blocks.
module QuantSegments {
  import opened Numbers
  import opened MarkerBytes

  const M_DQT: Byte := 0xDB
  const NUM_QUANT_TBLS := 4

  type Quant = x: int | 0 <= x < 0x10000

  // The zigzag order for blocks that send count coefficients; the tables of jutils.c, whatever they are.
  type Orders = nat -> seq<nat>

  ghost predicate GoodOrder(order: seq<nat>, count: nat) {
    && count <= |order| && (forall i :: 0 <= i < count ==> order[i] < 64)
    && forall i, j :: 0 <= i < j < count ==> order[i] != order[j]
  }

  // The coefficients sent of a block: lim_Se + 1.
  predicate IsCount(count: nat) { 1 <= count <= 64 }

  // A 16-bit table is needed if a value in use does not fit in a byte.
  predicate Wide(q: seq<Quant>, order: seq<nat>, count: nat)
    requires |q| == 64 && count <= |order| && forall i :: 0 <= i < count ==> order[i] < 64
  {
    exists i :: 0 <= i < count && q[order[i]] > 255
  }

  function Value(v: Quant, wide: bool): seq<Byte>
    requires wide || v < 0x100
  {
    if wide then Two(v) else [v]
  }

  function Values(q: seq<Quant>, order: seq<nat>, n: nat, wide: bool): (b: seq<Byte>)
    requires |q| == 64 && n <= |order| && forall i :: 0 <= i < n ==> order[i] < 64 && (wide || q[order[i]] < 0x100)
    ensures |b| == if wide then 2 * n else n
  {
    if n == 0 then [] else Values(q, order, n - 1, wide) + Value(q[order[n - 1]], wide)
  }

  ghost predicate IsQuant(index: nat, q: seq<Quant>, order: seq<nat>, count: nat) {
    index < NUM_QUANT_TBLS && |q| == 64 && IsCount(count) && GoodOrder(order, count)
  }

  lemma QuantFits(index: nat, q: seq<Quant>, order: seq<nat>, count: nat)
    requires IsQuant(index, q, order, count)
    ensures index < NUM_QUANT_TBLS && |q| == 64 && 1 <= count <= 64 && count <= |order|
    ensures forall i :: 0 <= i < count ==> order[i] < 64 && (Wide(q, order, count) || q[order[i]] < 0x100)
  {
    hide GoodOrder;
    OrderFits(order, count);
  }

  lemma OrderFits(order: seq<nat>, count: nat)
    requires GoodOrder(order, count)
    ensures count <= |order| && forall i :: 0 <= i < count ==> order[i] < 64
  {
  }

  // prec << 4 | index
  function PrecByte(wide: bool, index: nat): Byte
    requires index < NUM_QUANT_TBLS
  {
    if wide then 0x10 + index else index
  }

  ghost function QuantBytes(index: nat, q: seq<Quant>, order: seq<nat>, count: nat): (b: seq<Byte>)
    requires IsQuant(index, q, order, count)
    ensures |b| == 1 + if Wide(q, order, count) then 2 * count else count
  {
    [PrecByte(Wide(q, order, count), index)] + Values(q, order, count, Wide(q, order, count))
  }

  ghost function DqtBody(index: nat, q: seq<Quant>, order: seq<nat>, count: nat): seq<Byte>
    requires IsQuant(index, q, order, count)
  {
    Two(|QuantBytes(index, q, order, count)| + 2) + QuantBytes(index, q, order, count)
  }

  // The search for a value that does not fit in a byte.
  method IsWide(q: seq<Quant>, order: seq<nat>, count: nat) returns (prec: bool)
    requires |q| == 64 && count <= |order| && forall i :: 0 <= i < count ==> order[i] < 64
    ensures prec == Wide(q, order, count)
  {
    prec := false;
    var i := 0;
    while i < count
      invariant 0 <= i <= count && (prec <==> exists k :: 0 <= k < i && q[order[k]] > 255)
    {
      if q[order[i]] > 255 {
        prec := true;
      }
      i := i + 1;
    }
  }

  // emit_dqt: returns whether the table is a 16-bit one; it is written unless it has been sent.
  method EmitDqt(w: MarkerWriter, index: nat, q: seq<Quant>, order: seq<nat>, count: nat, sent: bool) returns (prec: bool, nowSent: bool)
    requires IsQuant(index, q, order, count)
    modifies w
    ensures nowSent && prec == Wide(q, order, count)
    ensures w.out == old(w.out) + (if sent then [] else [0xFF, M_DQT] + DqtBody(index, q, order, count))
  {
    QuantFits(index, q, order, count);
    prec := IsWide(q, order, count);
    hide Values, PrecByte, Two, IsQuant, GoodOrder, Wide;
    if !sent {
      var size, head := (if prec then count * 2 + 1 + 2 else count + 1 + 2), PrecByte(prec, index);
      w.EmitMarker(M_DQT);
      w.Emit2Bytes(size);
      w.EmitByte(head);
      EmitValues(w, q, order, count, prec);
      Grouped(old(w.out), [0xFF, M_DQT], Two(size), [head], Values(q, order, count, prec));
    }
    nowSent := true;
  }

  lemma Grouped(a: seq<Byte>, b: seq<Byte>, c: seq<Byte>, d: seq<Byte>, e: seq<Byte>)
    ensures a + b + c + d + e == a + (b + (c + (d + e)))
  {
  }

  method EmitValue(w: MarkerWriter, qval: Quant, wide: bool)
    requires wide || qval < 0x100
    modifies w
    ensures w.out == old(w.out) + Value(qval, wide)
  {
    if wide {
      w.EmitByte(qval / 0x100);
    }
    w.EmitByte(qval % 0x100);
  }

  method EmitValues(w: MarkerWriter, q: seq<Quant>, order: seq<nat>, count: nat, wide: bool)
    requires |q| == 64 && count <= |order| && forall i :: 0 <= i < count ==> order[i] < 64 && (wide || q[order[i]] < 0x100)
    modifies w
    ensures w.out == old(w.out) + Values(q, order, count, wide)
  {
    var i := 0;
    while i < count
      invariant 0 <= i <= count && w.out == old(w.out) + Values(q, order, i, wide)
    {
      hide Value;
      ghost var values := Values(q, order, i, wide);
      EmitValue(w, q[order[i]], wide);
      assert old(w.out) + values + Value(q[order[i]], wide) == old(w.out) + (values + Value(q[order[i]], wide));
      i := i + 1;
    }
  }

  // ----- the reader -----

  datatype Slot = Missing | Defined(quantval: seq<Quant>)

  // The values in use are restored; where a block sends fewer than 64, the others are 1.
  ghost predicate SameQuant(now: seq<Quant>, q: seq<Quant>, order: seq<nat>, count: nat)
    requires IsQuant(0, q, order, count) && |now| == 64
  {
    && (forall i :: 0 <= i < count ==> now[order[i]] == q[order[i]])
    && (count < 64 ==> forall p :: 0 <= p < 64 && p !in order[..count] ==> now[p] == 1)
  }

  // Where value i of the list is.
  lemma {:induction false} ValueAt(q: seq<Quant>, order: seq<nat>, n: nat, wide: bool, i: nat)
    requires |q| == 64 && n <= |order| && (forall k :: 0 <= k < n ==> order[k] < 64 && (wide || q[order[k]] < 0x100)) && i < n
    ensures if wide then Word(Values(q, order, n, wide)[2 * i], Values(q, order, n, wide)[2 * i + 1]) == q[order[i]]
            else Values(q, order, n, wide)[i] == q[order[i]]
  {
    if i < n - 1 { ValueAt(q, order, n - 1, wide, i); }
  }

  // Values 0 to n - 1 are in place.
  ghost predicate Placed(now: seq<Quant>, was: seq<Quant>, q: seq<Quant>, order: seq<nat>, count: nat, n: nat)
    requires IsQuant(0, q, order, count) && |now| == |was| == 64 && n <= count
  {
    && (forall i :: 0 <= i < n ==> now[order[i]] == q[order[i]])
    && forall p :: 0 <= p < 64 && p !in order[..n] ==> now[p] == was[p]
  }

  lemma PlaceNext(now: seq<Quant>, was: seq<Quant>, q: seq<Quant>, order: seq<nat>, count: nat, n: nat)
    requires IsQuant(0, q, order, count) && |now| == |was| == 64 && n < count && Placed(now, was, q, order, count, n)
    ensures Placed(now[order[n] := q[order[n]]], was, q, order, count, n + 1)
  {
    assert order[..n + 1] == order[..n] + [order[n]];
  }

  lemma AllPlaced(now: seq<Quant>, was: seq<Quant>, q: seq<Quant>, order: seq<nat>, count: nat)
    requires IsQuant(0, q, order, count) && |now| == |was| == 64 && Placed(now, was, q, order, count, count)
    requires count < 64 ==> forall p :: 0 <= p < 64 ==> was[p] == 1
    ensures SameQuant(now, q, order, count)
  {
  }

  // Where value i of the segment is in the data.
  lemma ValueThere(src: MarkerSource, at: nat, end: nat, q: seq<Quant>, order: seq<nat>, count: nat, wide: bool, i: nat)
    requires IsQuant(0, q, order, count) && i < count && (wide || !Wide(q, order, count))
    requires src.Ahead(at, end, Values(q, order, count, wide))
    ensures if wide then at + 2 * i + 2 <= end <= |src.data| && Word(src.data[at + 2 * i], src.data[at + 2 * i + 1]) == q[order[i]]
            else at + i + 1 <= end <= |src.data| && src.data[at + i] == q[order[i]]
  {
    ValueAt(q, order, count, wide, i);
    var s := src.data[at..end];
    if wide { assert s[2 * i] == src.data[at + 2 * i] && s[2 * i + 1] == src.data[at + 2 * i + 1]; } else { assert s[i] == src.data[at + i]; }
  }

  method ReadValue(src: MarkerSource, at: nat, wide: bool) returns (ok: bool, tmp: Quant, next: nat)
    requires src.Valid() && src.pos <= at <= src.avail
    ensures ok <==> at + (if wide then 2 else 1) <= src.avail
    ensures ok ==> next == at + (if wide then 2 else 1) && tmp == if wide then Word(src.data[at], src.data[at + 1]) else src.data[at]
  {
    if wide {
      var v;
      ok, v, next := src.Input2Bytes(at);
      tmp := v;
    } else {
      var b;
      ok, b, next := src.InputByte(at);
      tmp := b;
    }
  }

  class QuantTables {
    var tbls: seq<Slot>

    constructor ()
      ensures Valid()
    {
      tbls := seq(NUM_QUANT_TBLS, _ => Missing);
    }

    ghost predicate Valid()
      reads this
    {
      |tbls| == NUM_QUANT_TBLS && forall k :: 0 <= k < |tbls| && tbls[k].Defined? ==> |tbls[k].quantval| == 64
    }

    ghost predicate OthersKept(was: seq<Slot>, index: nat)
      reads this
    {
      |was| == |tbls| && forall k :: 0 <= k < |tbls| && k != index ==> tbls[k] == was[k]
    }

    // The values of a table, put into natural order as they come in.
    method ReadValues(src: MarkerSource, at: nat, n: nat, wide: bool, order: seq<nat>, count: nat, ghost end: nat, ghost q: seq<Quant>, ghost sync: bool)
      returns (ok: bool, next: nat)
      requires Valid() && n < NUM_QUANT_TBLS && tbls[n].Defined? && src.Valid() && src.pos <= at <= src.avail && count <= 64 && GoodOrder(order, count)
      requires sync ==> IsQuant(n, q, order, count) && (wide || !Wide(q, order, count)) && src.Ahead(at, end, Values(q, order, count, wide))
      modifies this
      ensures Valid() && tbls[n].Defined? && OthersKept(old(tbls), n)
      ensures ok <==> at + (if wide then 2 * count else count) <= src.avail
      ensures ok ==> next == at + if wide then 2 * count else count
      ensures ok && sync ==> Placed(tbls[n].quantval, old(tbls)[n].quantval, q, order, count, count)
    {
      hide MarkerSource.Ahead, Wide, Values, Word;
      next := at;
      ghost var was := tbls[n].quantval;
      var i := 0;
      while i < count
        invariant 0 <= i <= count && Valid() && tbls[n].Defined? && OthersKept(old(tbls), n)
        invariant next == at + (if wide then 2 * i else i) <= src.avail
        invariant sync ==> Placed(tbls[n].quantval, was, q, order, count, i)
      {
        var tmp;
        ok, tmp, next := ReadValue(src, next, wide);
        if !ok {
          return;
        }
        if sync {
          ValueThere(src, at, end, q, order, count, wide, i);
          PlaceNext(tbls[n].quantval, was, q, order, count, i);
        }
        hide Placed;
        tbls := tbls[n := Defined(tbls[n].quantval[order[i] := tmp])];
        i := i + 1;
      }
      ok := true;
    }

    // A table to be defined; one that is not sent whole begins with ones.
    method Prepare(n: nat, size: nat)
      requires Valid() && n < NUM_QUANT_TBLS
      modifies this
      ensures Valid() && tbls[n].Defined? && OthersKept(old(tbls), n) && (size < 64 ==> forall p :: 0 <= p < 64 ==> tbls[n].quantval[p] == 1)
    {
      if tbls[n].Missing? {
        tbls := tbls[n := Defined(seq(64, _ => 0))];
      }
      if size < 64 {
        tbls := tbls[n := Defined(seq(64, _ => 1))];
      }
    }

    // One table of the segment, from place at on; length bytes of the segment are left.
    method GetTable(src: MarkerSource, orders: Orders, at: nat, length: nat, ghost end: nat, ghost index: nat, ghost q: seq<Quant>, ghost count: nat)
      returns (got: Got, next: nat, left: int)
      requires Valid() && src.Valid() && src.pos <= at <= src.avail && length >= 1 && AllCounts(orders)
      modifies this
      ensures Valid() && (got == Done ==> at < next <= src.avail && left < length)
      ensures IsQuant(index, q, orders(count), count) && length == |QuantBytes(index, q, orders(count), count)|
              && src.Ahead(at, end, QuantBytes(index, q, orders(count), count)) ==>
        && OthersKept(old(tbls), index)
        && if end <= src.avail then got == Done && next == end && left == 0 && Restored(index, q, orders(count), count) else got == Suspended
    {
      ghost var sync := IsQuant(index, q, orders(count), count) && length == |QuantBytes(index, q, orders(count), count)|
        && src.Ahead(at, end, QuantBytes(index, q, orders(count), count));
      ghost var wide := sync && Wide(q, orders(count), count);
      if sync { Parts(src, at, end, index, q, orders(count), count); }
      hide MarkerSource.Ahead, QuantBytes, Values, Wide, SameQuant, IsQuant, GoodOrder, AllCounts, Low, High;
      left, next := length - 1, at;
      assert left >= 0;
      var ok, b;
      ok, b, next := src.InputByte(next);
      if !ok {
        return Suspended, next, left;
      }
      var n, prec := Low(b), High(b) != 0;
      if n >= NUM_QUANT_TBLS {
        return Failed, next, left;
      }
      if sync { AllOfThem(count, wide); }
      hide HowMany;
      var size := HowMany(left, prec);
      ok, next := GetValues(src, orders, next, n, prec, size, end, q, sync);
      if !ok {
        return Suspended, next, left;
      }
      return Done, next, left - if prec then 2 * size else size;
    }

    // The values of a table, the table having been set up for them.
    method GetValues(src: MarkerSource, orders: Orders, at: nat, n: nat, prec: bool, size: nat, ghost end: nat, ghost q: seq<Quant>, ghost sync: bool)
      returns (ok: bool, next: nat)
      requires Valid() && n < NUM_QUANT_TBLS && src.Valid() && src.pos <= at <= src.avail && size <= 64 && AllCounts(orders)
      requires sync ==> IsQuant(n, q, orders(size), size) && (prec || !Wide(q, orders(size), size)) && src.Ahead(at, end, Values(q, orders(size), size, prec))
      modifies this
      ensures Valid() && OthersKept(old(tbls), n)
      ensures ok <==> at + (if prec then 2 * size else size) <= src.avail
      ensures ok ==> next == at + if prec then 2 * size else size
      ensures ok && sync ==> Restored(n, q, orders(size), size)
    {
      hide MarkerSource.Ahead, Values, Wide, Placed, SameQuant;
      Prepare(n, size);
      ghost var was := tbls[n].quantval;
      ok, next := ReadValues(src, at, n, prec, orders(size), size, end, q, sync);
      if ok && sync { AllPlaced(tbls[n].quantval, was, q, orders(size), size); }
    }

    ghost predicate Restored(index: nat, q: seq<Quant>, order: seq<nat>, count: nat)
      requires IsQuant(index, q, order, count)
      reads this
    {
      index < |tbls| && tbls[index].Defined? && |tbls[index].quantval| == 64 && SameQuant(tbls[index].quantval, q, order, count)
    }

    // get_dqt
    method GetDqt(src: MarkerSource, orders: Orders, ghost index: nat, ghost q: seq<Quant>, ghost count: nat) returns (got: Got)
      requires Valid() && src.Valid() && AllCounts(orders)
      modifies this, src`pos
      ensures Valid() && src.Valid() && (got != Done ==> src.pos == old(src.pos))
      ensures IsQuant(index, q, orders(count), count)
              && old(src.Ahead(src.pos, src.pos + |DqtBody(index, q, orders(count), count)|, DqtBody(index, q, orders(count), count))) ==>
        && OthersKept(old(tbls), index)
        && var end := old(src.pos) + |DqtBody(index, q, orders(count), count)|;
           if end <= src.avail then got == Done && src.pos == end && Restored(index, q, orders(count), count) else got == Suspended
    {
      ghost var sync := IsQuant(index, q, orders(count), count)
        && src.Ahead(src.pos, src.pos + |DqtBody(index, q, orders(count), count)|, DqtBody(index, q, orders(count), count));
      ghost var end := if sync then src.pos + |DqtBody(index, q, orders(count), count)| else 0;
      if sync { Body(src, src.pos, end, index, q, orders(count), count); }
      hide MarkerSource.Ahead, QuantBytes, DqtBody;
      var ok, total, next := src.Input2Bytes(src.pos);
      if !ok {
        return Suspended;
      }
      var whole: int := total;
      var length := whole - 2;
      ghost var first := true;
      while length > 0
        invariant Valid() && src.Valid() && src.pos == old(src.pos) && src.pos <= next <= src.avail
        invariant sync ==> OthersKept(old(tbls), index)
        invariant sync && first ==> length == |QuantBytes(index, q, orders(count), count)| && src.Ahead(next, end, QuantBytes(index, q, orders(count), count))
        invariant sync && !first ==> length == 0 && next == end && Restored(index, q, orders(count), count)
        decreases length
      {
        got, next, length := GetTable(src, orders, next, length, end, index, q, count);
        if got != Done {
          return;
        }
        first := false;
      }
      if length != 0 {
        return Failed;
      }
      src.pos := next;
      return Done;
    }
  }

  // For any number of values there is an order; the regular one has 64 places.
  ghost predicate AllCounts(orders: Orders) { forall count :: 0 <= count <= 64 ==> GoodOrder(orders(count), count) }

  // How many values the rest of a segment has room for.
  function HowMany(left: nat, wide: bool): (n: nat)
    ensures n <= 64
  {
    if wide then (if left < 128 then left / 2 else 64) else if left < 64 then left else 64
  }

  lemma AllOfThem(count: nat, wide: bool)
    requires count <= 64
    ensures HowMany(if wide then 2 * count else count, wide) == count
  {
  }

  // Where the parts of a segment are.
  lemma Body(src: MarkerSource, at: nat, end: nat, index: nat, q: seq<Quant>, order: seq<nat>, count: nat)
    requires IsQuant(index, q, order, count) && src.Ahead(at, end, DqtBody(index, q, order, count))
    ensures at + 2 <= end <= |src.data| && Word(src.data[at], src.data[at + 1]) == |QuantBytes(index, q, order, count)| + 2
    ensures src.Ahead(at + 2, end, QuantBytes(index, q, order, count))
  {
    var size := Two(|QuantBytes(index, q, order, count)| + 2);
    src.AheadPart(at, end, size, QuantBytes(index, q, order, count));
    assert src.data[at] == src.data[at..at + 2][0] && src.data[at + 1] == src.data[at..at + 2][1];
  }

  lemma Parts(src: MarkerSource, at: nat, end: nat, index: nat, q: seq<Quant>, order: seq<nat>, count: nat)
    requires IsQuant(index, q, order, count) && src.Ahead(at, end, QuantBytes(index, q, order, count))
    ensures at < end <= |src.data| && index < NUM_QUANT_TBLS && Low(src.data[at]) == index && (High(src.data[at]) != 0 <==> Wide(q, order, count))
    ensures IsCount(count) && GoodOrder(order, count) && |q| == 64
    ensures end == at + 1 + (if Wide(q, order, count) then 2 * count else count) && src.Ahead(at + 1, end, Values(q, order, count, Wide(q, order, count)))
  {
    var wide := Wide(q, order, count);
    var ix := [PrecByte(wide, index)];
    src.AheadPart(at, end, ix, Values(q, order, count, wide));
    assert src.data[at] == src.data[at..at + 1][0];
  }
}
