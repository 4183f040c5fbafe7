// The second half of jpeg_gen_optimal_table: counting the lengths, limiting them to 16 bits, listing the symbols.
module HuffOptimal {
  import opened Numbers
  import opened HuffTable
  import opened HuffOrder
  import opened HuffMerge
  import opened HuffBest

  const MAX_CLEN := 32

  // How many of the first n symbols have a length from lo to hi.
  function Num(cs: seq<nat>, n: nat, lo: nat, hi: nat): (r: nat)
    requires n <= |cs|
    ensures r <= n
  {
    if n == 0 then 0 else Num(cs, n - 1, lo, hi) + if lo <= cs[n - 1] <= hi then 1 else 0
  }

  lemma {:induction false} NumSplit(cs: seq<nat>, n: nat, lo: nat, mid: nat, hi: nat)
    requires n <= |cs| && lo <= mid + 1 && mid <= hi
    ensures Num(cs, n, lo, hi) == Num(cs, n, lo, mid) + Num(cs, n, mid + 1, hi)
  {
    if n > 0 { NumSplit(cs, n - 1, lo, mid, hi); }
  }

  // ----- counting the lengths -----

  // One more code of length k.
  lemma {:induction false} CountMore(bits: seq<Byte>, k: nat, d: int, l: nat)
    requires 1 <= k < |bits| && l < |bits| && 0 <= bits[k] + d < 256
    ensures Total(bits[k := bits[k] + d], l) == Total(bits, l) + if k <= l then d else 0
    ensures Kraft(bits[k := bits[k] + d], l) == Kraft(bits, l) + if k <= l then d * Pow2(l - k) else 0
  {
    if l > 0 {
      CountMore(bits, k, d, l - 1);
      if k < l {
        var q := Pow2(l - 1 - k);
        assert Pow2(l - k) == 2 * q;
        hide Pow2;
        MulTwiceInt(d, q);
      } else if k == l {
        assert d * Pow2(0) == d;
      }
    }
  }

  lemma MulTwiceInt(a: int, p: nat)
    ensures a * (2 * p) == 2 * (a * p)
  {
  }

  // Kraft sum of the first n symbols in units of 2^-32.
  function KraftUnits(cs: seq<nat>, n: nat): nat
    requires n <= |cs| && forall i :: 0 <= i < n ==> cs[i] <= MAX_CLEN
  {
    if n == 0 then 0 else KraftUnits(cs, n - 1) + if cs[n - 1] > 0 then Pow2(MAX_CLEN - cs[n - 1]) else 0
  }

  lemma {:induction false} InvUnits(k: nat)
    requires k <= MAX_CLEN
    ensures Inv(k) * 4294967296.0 == Pow2(MAX_CLEN - k) as real
  {
    if k == 0 {
      Pow2Consts32();
    } else {
      InvUnits(k - 1);
    }
  }

  lemma Pow2Consts32()
    ensures Pow2(32) == 0x1_0000_0000 && Pow2(16) == 0x1_0000
  {
    assert Pow2(8) == 0x100;
    Pow2Plus(8, 8);
    Pow2Plus(16, 16);
  }

  lemma {:induction false} UnitsOfKraft(cs: seq<nat>, n: nat)
    requires |cs| == SYMBOLS && n <= SYMBOLS && forall i :: 0 <= i < SYMBOLS ==> cs[i] <= MAX_CLEN
    ensures KraftAll(cs, n) * 4294967296.0 == KraftUnits(cs, n) as real
  {
    if n > 0 {
      UnitsOfKraft(cs, n - 1);
      InvUnits(cs[n - 1]);
    }
  }

  // How many symbols have each length, in 8-bit counters.
  method CountLengths(codesize: array<nat>) returns (ok: bool, bits: array<Byte>)
    requires codesize.Length == SYMBOLS && Num(codesize[..], SYMBOLS, 1, MAX_CLEN) < 256
    ensures bits.Length == MAX_CLEN + 1 && fresh(bits)
    ensures ok <==> forall i :: 0 <= i < SYMBOLS ==> codesize[i] <= MAX_CLEN
    ensures ok ==> bits[0] == 0 && Total(bits[..], MAX_CLEN) == Num(codesize[..], SYMBOLS, 1, MAX_CLEN)
    ensures ok ==> Kraft(bits[..], MAX_CLEN) == KraftUnits(codesize[..], SYMBOLS)
    ensures ok ==> forall l :: 1 <= l <= MAX_CLEN ==> bits[l] == Num(codesize[..], SYMBOLS, l, l)
  {
    bits := new Byte[MAX_CLEN + 1](_ => 0);
    ghost var cs := codesize[..];
    AllZero(bits[..], MAX_CLEN);
    for i := 0 to SYMBOLS
      invariant fresh(bits) && bits[0] == 0
      invariant forall j :: 0 <= j < i ==> cs[j] <= MAX_CLEN
      invariant Total(bits[..], MAX_CLEN) == Num(cs, i, 1, MAX_CLEN)
      invariant Kraft(bits[..], MAX_CLEN) == KraftUnits(cs, i)
      invariant forall l :: 1 <= l <= MAX_CLEN ==> bits[l] == Num(cs, i, l, l)
    {
      if codesize[i] != 0 {
        if codesize[i] > MAX_CLEN {
          return false, bits;
        }
        NumGrows(cs, i + 1, SYMBOLS);
        InTotal(bits[..], codesize[i], MAX_CLEN);
        ghost var bits0 := bits[..];
        CountMore(bits0, codesize[i], 1, MAX_CLEN);
        bits[codesize[i]] := (bits[codesize[i]] + 1) % 256;
        assert bits[..] == bits0[cs[i] := bits0[cs[i]] + 1];
      }
    }
    return true, bits;
  }

  lemma {:induction false} AllZero(bits: seq<Byte>, l: nat)
    requires l < |bits| && forall k :: 0 <= k < |bits| ==> bits[k] == 0
    ensures Total(bits, l) == 0 && Kraft(bits, l) == 0
  {
    if l > 0 { AllZero(bits, l - 1); }
  }

  lemma {:induction false} NumGrows(cs: seq<nat>, m: nat, n: nat)
    requires m <= n <= |cs|
    ensures Num(cs, m, 1, MAX_CLEN) <= Num(cs, n, 1, MAX_CLEN)
  {
    if m < n { NumGrows(cs, m, n - 1); }
  }

  lemma {:induction false} InTotal(bits: seq<Byte>, k: nat, l: nat)
    requires 1 <= k <= l < |bits|
    ensures bits[k] <= Total(bits, l)
  {
    if k < l { InTotal(bits, k, l - 1); }
  }

  // ----- limiting the lengths -----

  // A complete code, of fewer than 256 symbols, of no length above i.
  ghost predicate Full(bits: seq<Byte>, i: nat, total: nat) {
    && |bits| == MAX_CLEN + 1 && i <= MAX_CLEN && bits[0] == 0
    && Total(bits, MAX_CLEN) == total < 256 && Kraft(bits, MAX_CLEN) == Pow2(MAX_CLEN)
    && forall k :: i < k <= MAX_CLEN ==> bits[k] == 0
  }

  lemma {:induction false} KraftTop(bits: seq<Byte>, i: nat, l: nat)
    requires i <= l < |bits| && forall k :: i < k <= l ==> bits[k] == 0
    ensures Kraft(bits, l) == Kraft(bits, i) * Pow2(l - i) && Total(bits, l) == Total(bits, i)
  {
    if i < l {
      KraftTop(bits, i, l - 1);
      assert Pow2(l - i) == 2 * Pow2(l - 1 - i);
      hide Pow2;
      MulTwice(Kraft(bits, i), Pow2(l - 1 - i));
    }
  }

  // The longest codes come in pairs.
  lemma FullAt(bits: seq<Byte>, i: nat, total: nat)
    requires Full(bits, i, total) && i >= 1
    ensures |bits| == MAX_CLEN + 1 && Kraft(bits, i) == Pow2(i) && Total(bits, i) == total && bits[i] % 2 == 0
    ensures 2 * Kraft(bits, i - 1) + bits[i] == Pow2(i)
  {
    hide Pow2;
    TopWhole(bits, i);
    Pow2Even(i);
    KraftStep(bits, i);
    hide Kraft, Total;
    Parity(Kraft(bits, i - 1), bits[i], Pow2(i));
  }

  lemma Pow2Even(i: nat)
    requires i >= 1
    ensures Pow2(i) % 2 == 0
  {
  }

  lemma KraftStep(bits: seq<Byte>, i: nat)
    requires 1 <= i < |bits|
    ensures Kraft(bits, i) == 2 * Kraft(bits, i - 1) + bits[i]
  {
  }

  lemma Parity(k: nat, b: nat, p: nat)
    requires 2 * k + b == p && p % 2 == 0
    ensures b % 2 == 0
  {
  }

  lemma TopWhole(bits: seq<Byte>, i: nat)
    requires |bits| == MAX_CLEN + 1 && i <= MAX_CLEN && Kraft(bits, MAX_CLEN) == Pow2(MAX_CLEN)
    requires forall k :: i < k <= MAX_CLEN ==> bits[k] == 0
    ensures Kraft(bits, i) == Pow2(i) && Total(bits, i) == Total(bits, MAX_CLEN)
  {
    hide *;
    KraftTop(bits, i, MAX_CLEN);
    Pow2Plus(i, MAX_CLEN - i);
    MulCancel(Kraft(bits, i), Pow2(i), Pow2(MAX_CLEN - i));
  }

  lemma MulCancel(a: nat, b: nat, p: nat)
    requires p >= 1 && a * p == b * p
    ensures a == b
  {
    if a < b { MulLess(a, b, p); }
    if b < a { MulLess(b, a, p); }
  }

  // There is always a shorter code to make a prefix of: 255 symbols cannot fill the two longest lengths on their own.
  lemma PrefixExists(bits: seq<Byte>, i: nat, total: nat)
    requires Full(bits, i, total) && i > 16
    ensures exists j :: 1 <= j <= i - 2 && bits[j] > 0
  {
    FullAt(bits, i, total);
    LongPower(i);
    hide Pow2;
    if forall j :: 1 <= j <= i - 2 ==> bits[j] == 0 {
      TwoLengths(bits, i);
      assert false;
    }
  }

  lemma TwoLengths(bits: seq<Byte>, i: nat)
    requires 2 <= i < |bits| && forall j :: 1 <= j <= i - 2 ==> bits[j] == 0
    ensures Kraft(bits, i) == 2 * (bits[i - 1] as int) + bits[i] as int
  {
    KraftTop(bits, 0, i - 2);
  }

  lemma LongPower(i: nat)
    requires i >= 16
    ensures Pow2(i) >= 0x1_0000
  {
    Pow2Consts32();
    Pow2Plus(i - 16, 16);
    MulLe(1, Pow2(i - 16), Pow2(16));
  }

  ghost predicate Movable(bits: seq<Byte>, i: nat, j: nat) {
    && |bits| == MAX_CLEN + 1 && i <= MAX_CLEN && 1 <= j <= i - 2
    && bits[i] >= 2 && bits[j] >= 1 && bits[i - 1] as int + 1 < 256
    && (if j + 1 == i - 1 then bits[j + 1] as int + 1 else bits[j + 1] as int) + 2 < 256
  }

  // The four counters touched when a pair of codes of length i is taken apart and a code of length j split.
  ghost function Moved(bits: seq<Byte>, i: nat, j: nat): (r: seq<Byte>)
    requires Movable(bits, i, j)
    ensures |r| == |bits|
  {
    var a := bits[i := bits[i] - 2];
    var b := a[i - 1 := a[i - 1] + 1];
    var c := b[j := b[j] - 1];
    c[j + 1 := c[j + 1] + 2]
  }

  lemma PairTaken(bits: seq<Byte>, i: nat)
    requires |bits| == MAX_CLEN + 1 && 2 <= i <= MAX_CLEN && bits[i] >= 2 && bits[i - 1] as int + 1 < 256
    ensures var b := bits[i := bits[i] - 2][i - 1 := bits[i - 1] + 1];
      Total(b, MAX_CLEN) == Total(bits, MAX_CLEN) - 1 && Kraft(b, MAX_CLEN) == Kraft(bits, MAX_CLEN)
  {
    var p := Pow2(MAX_CLEN - i);
    assert Pow2(MAX_CLEN - (i - 1)) == 2 * p;
    hide *;
    CountMore(bits, i, -2, MAX_CLEN);
    CountMore(bits[i := bits[i] - 2], i - 1, 1, MAX_CLEN);
  }

  lemma CodeSplit(bits: seq<Byte>, j: nat)
    requires |bits| == MAX_CLEN + 1 && 1 <= j < MAX_CLEN && bits[j] >= 1 && bits[j + 1] as int + 2 < 256
    ensures var b := bits[j := bits[j] - 1][j + 1 := bits[j + 1] + 2];
      Total(b, MAX_CLEN) == Total(bits, MAX_CLEN) + 1 && Kraft(b, MAX_CLEN) == Kraft(bits, MAX_CLEN)
  {
    var p := Pow2(MAX_CLEN - (j + 1));
    assert Pow2(MAX_CLEN - j) == 2 * p;
    hide *;
    CountMore(bits, j, -1, MAX_CLEN);
    CountMore(bits[j := bits[j] - 1], j + 1, 2, MAX_CLEN);
  }

  lemma MovedSums(bits: seq<Byte>, i: nat, j: nat)
    requires Movable(bits, i, j)
    ensures Total(Moved(bits, i, j), MAX_CLEN) == Total(bits, MAX_CLEN)
    ensures Kraft(Moved(bits, i, j), MAX_CLEN) == Kraft(bits, MAX_CLEN)
  {
    hide Total, Kraft;
    PairTaken(bits, i);
    CodeSplit(bits[i := bits[i] - 2][i - 1 := bits[i - 1] + 1], j);
  }

  lemma {:induction false} PairInTotal(bits: seq<Byte>, j: nat, k: nat, l: nat)
    requires 1 <= j < k <= l < |bits|
    ensures bits[j] as int + bits[k] as int <= Total(bits, l)
  {
    if k < l { PairInTotal(bits, j, k, l - 1); } else { InTotal(bits, j, l - 1); }
  }

  lemma {:induction false} TripleInTotal(bits: seq<Byte>, j: nat, k: nat, m: nat, l: nat)
    requires 1 <= j < k < m <= l < |bits|
    ensures bits[j] as int + bits[k] as int + bits[m] as int <= Total(bits, l)
  {
    if m < l { TripleInTotal(bits, j, k, m, l - 1); } else { PairInTotal(bits, j, k, l - 1); }
  }

  // Moving a pair up and splitting a shorter code neither adds symbols nor code space.
  lemma MoveKeeps(bits: seq<Byte>, i: nat, j: nat, total: nat)
    requires Full(bits, i, total) && 16 < i && 1 <= j <= i - 2 && bits[j] > 0 && bits[i] > 0
    ensures Movable(bits, i, j) && Full(Moved(bits, i, j), i, total)
  {
    FullAt(bits, i, total);
    hide Pow2, Kraft, Total;
    TripleInTotal(bits, j, i - 1, i, MAX_CLEN);
    TripleInTotal(bits, j, j + 1, i, MAX_CLEN);
    MovedSums(bits, i, j);
  }

  method LimitLengths(bits: array<Byte>, ghost total: nat)
    requires bits.Length == MAX_CLEN + 1 && Full(bits[..], MAX_CLEN, total)
    modifies bits
    ensures Full(bits[..], 16, total)
    ensures (forall k :: 16 < k <= MAX_CLEN ==> old(bits[k]) == 0) ==> bits[..] == old(bits[..])
  {
    hide Full;
    ghost var short := forall k :: 16 < k <= MAX_CLEN ==> bits[k] == 0;
    var i := MAX_CLEN;
    while i > 16
      invariant 16 <= i <= MAX_CLEN && Full(bits[..], i, total) && (short ==> bits[..] == old(bits[..]))
    {
      while bits[i] > 0
        invariant Full(bits[..], i, total) && (short ==> bits[..] == old(bits[..]))
        decreases bits[i]
      {
        ghost var bits0 := bits[..];
        PrefixExists(bits0, i, total);
        var j := i - 2;
        while bits[j] == 0
          invariant 0 <= j <= i - 2 && bits[..] == bits0
          invariant forall k :: j < k <= i - 2 ==> bits0[k] == 0
          decreases j
        {
          j := j - 1;
        }
        MoveKeeps(bits0, i, j, total);
        bits[i] := bits[i] - 2;
        bits[i - 1] := bits[i - 1] + 1;
        bits[j + 1] := bits[j + 1] + 2;
        bits[j] := bits[j] - 1;
        assert bits[..] == Moved(bits0, i, j);
      }
      FullLess(bits[..], i, total);
      i := i - 1;
    }
  }

  lemma FullLess(bits: seq<Byte>, i: nat, total: nat)
    requires 16 < i <= MAX_CLEN && Full(bits, i, total) && bits[i] == 0
    ensures Full(bits, i - 1, total)
  {
  }

  // The reserved symbol gives up its code, which is among the longest.
  method RemovePseudo(bits: array<Byte>, ghost total: nat)
    requires bits.Length == MAX_CLEN + 1 && Full(bits[..], 16, total) && total >= 1
    modifies bits
    ensures Total(bits[..], 16) == total - 1 && Kraft(bits[..], 16) < Pow2(16) && bits[0] == 0
    ensures exists i: nat :: Longest(old(bits[..]), i) && bits[..] == old(bits[..])[i := old(bits[..])[i] - 1]
  {
    hide Full, Kraft, Total, Pow2;
    ghost var bits0 := bits[..];
    ghost var used := SomeUsed(bits0, total);
    var i := 16;
    while bits[i] == 0
      invariant 1 <= used <= i <= 16
      invariant forall k :: i < k <= 16 ==> bits0[k] == 0
      decreases i
    {
      i := i - 1;
    }
    DropOne(bits0, i, total);
    assert Longest(bits0, i);
    bits[i] := bits[i] - 1;
    assert bits[..] == bits0[i := bits0[i] - 1];
  }

  // i is the longest length in use, none being above 16.
  ghost predicate Longest(bits: seq<Byte>, i: nat) {
    1 <= i <= 16 < |bits| && bits[i] > 0 && forall k :: i < k <= 16 ==> bits[k] == 0
  }

  lemma DropOne(bits: seq<Byte>, i: nat, total: nat)
    requires |bits| == MAX_CLEN + 1 && Full(bits, 16, total) && 1 <= i <= 16 && bits[i] > 0
    ensures var b := bits[i := bits[i] - 1]; Total(b, 16) == total - 1 && Kraft(b, 16) < Pow2(16) && b[0] == 0
  {
    FullAt(bits, 16, total);
    hide Pow2, Kraft, Total;
    CountMore(bits, i, -1, 16);
  }

  lemma SomeUsed(bits: seq<Byte>, total: nat) returns (used: nat)
    requires Full(bits, 16, total) && total >= 1
    ensures |bits| == MAX_CLEN + 1 && 1 <= used <= 16 && bits[used] > 0
  {
    hide Full, Pow2;
    FullAt(bits, 16, total);
    if forall k :: 1 <= k <= 16 ==> bits[k] == 0 { KraftTop(bits, 0, 16); }
    used :| 1 <= used <= 16 && bits[used] > 0;
  }

  // ----- the list of symbols -----

  // The first p entries of v: the symbols with lengths below i, and of length i those below j, in that order.
  ghost predicate Listed(cs: seq<nat>, v: seq<Byte>, p: nat, i: nat, j: nat)
    requires |cs| == SYMBOLS && |v| == 256
  {
    && p <= 256
    && (forall q :: 0 <= q < p ==> cs[v[q]] >= 1 && Before(cs[v[q]], v[q], i, j))
    && (forall q, r :: 0 <= q < r < p ==> Before(cs[v[q]], v[q], cs[v[r]], v[r]))
    && forall s :: 0 <= s < 256 && cs[s] >= 1 && Before(cs[s], s, i, j) ==> exists q :: 0 <= q < p && v[q] == s
  }

  predicate Before(l: nat, s: nat, m: nat, t: nat) {
    l < m || (l == m && s < t)
  }

  lemma NothingListed(cs: seq<nat>, v: seq<Byte>)
    requires |cs| == SYMBOLS && |v| == 256
    ensures Num(cs, 256, 1, 0) == 0 && Listed(cs, v, 0, 1, 0) && InSlots(cs, v, 0)
  {
    NoneListed(cs, 256);
  }

  // The symbols in order of their lengths.
  method ListSymbols(codesize: array<nat>) returns (huffval: array<Byte>)
    requires codesize.Length == SYMBOLS
    ensures huffval.Length == 256 && Listed(codesize[..], huffval[..], Num(codesize[..], 256, 1, MAX_CLEN), MAX_CLEN + 1, 0)
    ensures InSlots(codesize[..], huffval[..], Num(codesize[..], 256, 1, MAX_CLEN))
  {
    hide Listed, Num, InSlots;
    huffval := new Byte[256](_ => 0);
    ghost var cs := codesize[..];
    var p := 0;
    NothingListed(cs, huffval[..]);
    for i := 1 to MAX_CLEN + 1
      invariant p == Num(cs, 256, 1, i - 1) && Listed(cs, huffval[..], p, i, 0) && InSlots(cs, huffval[..], p)
    {
      NumSplit(cs, 256, 1, i - 1, i);
      ghost var v0, p0 := huffval[..], p;
      p := ListLength(codesize, huffval, i, p);
      MoreSlots(cs, v0, huffval[..], p0, p, i);
      LengthDone(cs, huffval[..], p, i);
    }
  }

  // Symbols of one length come behind all of shorter lengths.
  ghost predicate InSlots(cs: seq<nat>, v: seq<Byte>, p: nat)
    requires |cs| == SYMBOLS && |v| == 256
  {
    forall q :: 0 <= q < p <= 256 ==> 1 <= cs[v[q]] <= MAX_CLEN && Num(cs, 256, 1, cs[v[q]] - 1) <= q < Num(cs, 256, 1, cs[v[q]])
  }

  ghost predicate OfLength(cs: seq<nat>, v: seq<Byte>, p0: nat, p: nat, i: nat)
    requires |cs| == SYMBOLS && |v| == 256
  {
    forall q :: p0 <= q < p && q < 256 ==> cs[v[q]] == i
  }

  lemma MoreSlots(cs: seq<nat>, v0: seq<Byte>, v: seq<Byte>, p0: nat, p: nat, i: nat)
    requires |cs| == SYMBOLS && |v0| == |v| == 256 && 1 <= i <= MAX_CLEN && InSlots(cs, v0, p0)
    requires p0 == Num(cs, 256, 1, i - 1) && p == Num(cs, 256, 1, i) && p0 <= p <= 256
    requires v[..p0] == v0[..p0] && OfLength(cs, v, p0, p, i)
    ensures InSlots(cs, v, p)
  {
    hide Num;
    forall q | 0 <= q < p
      ensures 1 <= cs[v[q]] <= MAX_CLEN && Num(cs, 256, 1, cs[v[q]] - 1) <= q < Num(cs, 256, 1, cs[v[q]])
    {
      if q < p0 { assert v[..p0][q] == v0[..p0][q]; }
    }
  }

  lemma {:induction false} NoneListed(cs: seq<nat>, n: nat)
    requires n <= |cs|
    ensures Num(cs, n, 1, 0) == 0
  {
    if n > 0 { NoneListed(cs, n - 1); }
  }

  lemma LengthDone(cs: seq<nat>, v: seq<Byte>, p: nat, i: nat)
    requires |cs| == SYMBOLS && |v| == 256 && Listed(cs, v, p, i, 256)
    ensures Listed(cs, v, p, i + 1, 0)
  {
  }

  method ListLength(codesize: array<nat>, huffval: array<Byte>, i: nat, p0: nat) returns (p: nat)
    requires codesize.Length == SYMBOLS && huffval.Length == 256 && i >= 1
    requires Listed(codesize[..], huffval[..], p0, i, 0) && p0 + Num(codesize[..], 256, i, i) <= 256
    modifies huffval
    ensures p == p0 + Num(codesize[..], 256, i, i) && Listed(codesize[..], huffval[..], p, i, 256)
    ensures huffval[..p0] == old(huffval[..p0]) && OfLength(codesize[..], huffval[..], p0, p, i)
  {
    hide Listed;
    ghost var cs := codesize[..];
    p := p0;
    for j := 0 to 256
      invariant p == p0 + Num(cs, j, i, i) && Listed(cs, huffval[..], p, i, j) && codesize[..] == cs
      invariant huffval[..p0] == old(huffval[..p0]) && OfLength(cs, huffval[..], p0, p, i)
    {
      NumMonotone(cs, j + 1, 256, i);
      if codesize[j] == i {
        ghost var v0 := huffval[..];
        huffval[p] := j;
        p := p + 1;
        ListOne(cs, v0, p - 1, i, j);
        assert huffval[..] == v0[p - 1 := j];
      } else {
        ListSkip(cs, huffval[..], p, i, j);
      }
    }
  }

  lemma ListSkip(cs: seq<nat>, v: seq<Byte>, p: nat, i: nat, j: Byte)
    requires |cs| == SYMBOLS && |v| == 256 && cs[j] != i && Listed(cs, v, p, i, j)
    ensures Listed(cs, v, p, i, j + 1)
  {
  }

  lemma {:induction false} NumMonotone(cs: seq<nat>, m: nat, n: nat, i: nat)
    requires m <= n <= |cs|
    ensures Num(cs, m, i, i) <= Num(cs, n, i, i)
  {
    if m < n { NumMonotone(cs, m, n - 1, i); }
  }

  lemma ListOne(cs: seq<nat>, v: seq<Byte>, p: nat, i: nat, j: Byte)
    requires |cs| == SYMBOLS && |v| == 256 && p < 256 && i >= 1 && cs[j] == i && Listed(cs, v, p, i, j)
    ensures Listed(cs, v[p := j], p + 1, i, j + 1)
  {
    var w := v[p := j];
    forall s | 0 <= s < 256 && cs[s] >= 1 && Before(cs[s], s, i, j + 1)
      ensures exists q :: 0 <= q < p + 1 && w[q] == s
    {
      if s == j {
        assert w[p] == s;
      } else {
        var q :| 0 <= q < p && v[q] == s;
        assert w[q] == s;
      }
    }
  }

  // ----- the table -----

  // Fibonacci number 35: a code of 33 bits takes at least so many counts.
  const LONG_CODE_TOTAL := 9227465

  lemma Fib35()
    ensures Fib(35) == LONG_CODE_TOTAL
  {
    assert Fib(9) == 34 && Fib(10) == 55;
    assert Fib(15) == 610 && Fib(16) == 987;
    assert Fib(21) == 10946 && Fib(22) == 17711;
    assert Fib(27) == 196418 && Fib(28) == 317811;
    assert Fib(33) == 3524578 && Fib(34) == 5702887;
  }

  lemma LengthsFit(counted: seq<nat>, cs: seq<nat>)
    requires |counted| == |cs| == SYMBOLS && Sized(counted, cs) && Sum(counted) < LONG_CODE_TOTAL
    ensures forall i :: 0 <= i < SYMBOLS ==> cs[i] <= MAX_CLEN
  {
    Fib35();
    hide Fib, Sum;
    forall i | 0 <= i < SYMBOLS
      ensures cs[i] <= MAX_CLEN
    {
      if cs[i] > MAX_CLEN { FibGrows(35, cs[i] + 2); }
    }
  }

  lemma {:induction false} NumLive(counted: seq<nat>, cs: seq<nat>, n: nat)
    requires |counted| == |cs| && n <= |cs| && forall i :: 0 <= i < |cs| ==> (cs[i] > 0 <==> counted[i] > 0)
    ensures Num(cs, n, 1, MAX_CLEN) <= Live(counted[..n])
    ensures (forall i :: 0 <= i < |cs| ==> cs[i] <= MAX_CLEN) ==> Num(cs, n, 1, MAX_CLEN) == Live(counted[..n])
  {
    if n > 0 {
      NumLive(counted, cs, n - 1);
      assert counted[..n][..n - 1] == counted[..n - 1];
    }
  }

  // Kraft sum at most 2^16 - 1 at length 16: no length is overfull.
  lemma GoodByTop(bits: seq<Byte>)
    requires |bits| == 17 && Total(bits, 16) <= 256 && Kraft(bits, 16) < Pow2(16)
    ensures GoodCounts(bits)
  {
    forall l | 1 <= l <= 16
      ensures Kraft(bits, l) < Pow2(l)
    {
      hide Pow2, Kraft;
      KraftGrows(bits, l, 16);
      Pow2Plus(l, 16 - l);
      if Kraft(bits, l) >= Pow2(l) { MulLe(Pow2(l), Kraft(bits, l), Pow2(16 - l)); }
    }
  }

  lemma {:induction false} SamePrefix(a: seq<Byte>, b: seq<Byte>, l: nat)
    requires l < |a| && l < |b| && forall k :: 0 <= k <= l ==> a[k] == b[k]
    ensures Total(a, l) == Total(b, l) && Kraft(a, l) == Kraft(b, l)
  {
    if l > 0 { SamePrefix(a, b, l - 1); }
  }

  // The table lists exactly the counted symbols, once each, and its code is legal.
  ghost predicate Optimal(counted: seq<nat>, tbl: JHuffTbl)
    requires |counted| == SYMBOLS
  {
    && tbl.Shaped() && GoodCounts(tbl.bits) && SymbolsDiffer(tbl, Total(tbl.bits, 16))
    && Total(tbl.bits, 16) == Live(counted[..256])
    && forall s :: 0 <= s < 256 ==> (counted[s] > 0 <==> exists p :: 0 <= p < Total(tbl.bits, 16) && tbl.huffval[p] == s)
  }

  // The symbols are in the order of the lengths that Huffman's procedure gave them, and if none of those was too long they are
  // the lengths of the codes.
  ghost predicate Graded(cs: seq<nat>, tbl: JHuffTbl)
    requires |cs| == SYMBOLS && tbl.Shaped() && Total(tbl.bits, 16) <= 256
  {
    && (forall q, p :: 0 <= q < p < Total(tbl.bits, 16) ==> Before(cs[tbl.huffval[q]], tbl.huffval[q], cs[tbl.huffval[p]], tbl.huffval[p]))
    && ((forall i :: 0 <= i < SYMBOLS ==> cs[i] <= 16) ==>
          forall p :: 0 <= p < Total(tbl.bits, 16) ==> Len(tbl.bits, p) == cs[tbl.huffval[p]])
  }

  // The reserved symbol has one of the longest codes.
  lemma ReservedLongest(counted: seq<nat>, cs: seq<nat>, s: nat)
    requires |counted| == |cs| == SYMBOLS && Sized(counted, cs) && counted[256] == 1 && s < 256
    ensures cs[s] <= cs[256]
  {
    if counted[s] > 0 { assert Precedes(counted, s, 256); }
  }

  lemma {:induction false} NumNone(cs: seq<nat>, n: nat, l: nat)
    requires n <= |cs| && forall i :: 0 <= i < n ==> cs[i] != l
    ensures Num(cs, n, l, l) == 0
  {
    if n > 0 { NumNone(cs, n - 1, l); }
  }

  lemma {:induction false} NumPrefix(bits: seq<Byte>, cs: seq<nat>, l: nat)
    requires l < |bits| && |cs| == SYMBOLS && bits[0] == 0 && forall k :: 1 <= k <= l ==> bits[k] == Num(cs, 256, k, k)
    ensures Total(bits, l) == Num(cs, 256, 1, l)
  {
    if l == 0 {
      NoneListed(cs, 256);
    } else {
      NumPrefix(bits, cs, l - 1);
      NumSplit(cs, 256, 1, l - 1, l);
    }
  }

  // Without too long codes the counters are those of the real symbols, once the reserved one has given up its code.
  lemma RealCounts(counted: seq<nat>, cs: seq<nat>, bits0: seq<Byte>, i: nat, l: nat)
    requires |counted| == |cs| == SYMBOLS && Sized(counted, cs) && counted[256] == 1 && 1 <= l <= 16
    requires |bits0| == MAX_CLEN + 1 && (forall k :: 1 <= k <= MAX_CLEN ==> bits0[k] == Num(cs, SYMBOLS, k, k)) && Longest(bits0, i)
    requires forall k :: 0 <= k < SYMBOLS ==> cs[k] <= 16
    ensures bits0[i := bits0[i] - 1][l] == Num(cs, 256, l, l)
  {
    forall s | 0 <= s < 256
      ensures cs[s] <= cs[256]
    {
      ReservedLongest(counted, cs, s);
    }
    hide Sized;
    if l > cs[256] { NumNone(cs, SYMBOLS, l); }
    if i > cs[256] { NumNone(cs, SYMBOLS, i); }
    assert cs[256] > 0 ==> Num(cs, SYMBOLS, cs[256], cs[256]) == Num(cs, 256, cs[256], cs[256]) + 1;
    assert Num(cs, SYMBOLS, l, l) == Num(cs, 256, l, l) + if cs[256] == l then 1 else 0;
  }

  lemma TableGraded(counted: seq<nat>, cs: seq<nat>, bits0: seq<Byte>, bits1: seq<Byte>, bits: seq<Byte>, v: seq<Byte>)
    requires |counted| == |cs| == SYMBOLS && Sized(counted, cs) && counted[256] == 1
    requires |bits0| == |bits1| == |bits| == MAX_CLEN + 1 && |v| == 256 && bits0[0] == bits[0] == 0
    requires forall k :: 1 <= k <= MAX_CLEN ==> bits0[k] == Num(cs, SYMBOLS, k, k)
    requires (forall k :: 16 < k <= MAX_CLEN ==> bits0[k] == 0) ==> bits1 == bits0
    requires exists i: nat :: Longest(bits1, i) && bits == bits1[i := bits1[i] - 1]
    requires Listed(cs, v, Num(cs, 256, 1, MAX_CLEN), MAX_CLEN + 1, 0) && InSlots(cs, v, Num(cs, 256, 1, MAX_CLEN))
    requires var tbl := JHuffTbl(bits[..17], v); tbl.Shaped() && Total(tbl.bits, 16) == Num(cs, 256, 1, MAX_CLEN) <= 256
    ensures Graded(cs, JHuffTbl(bits[..17], v))
  {
    hide Sized, Num, Total, Kraft;
    if forall i :: 0 <= i < SYMBOLS ==> cs[i] <= 16 {
      forall k | 16 < k <= MAX_CLEN
        ensures bits0[k] == 0
      {
        NumNone(cs, SYMBOLS, k);
      }
      var i: nat :| Longest(bits0, i) && bits == bits0[i := bits0[i] - 1];
      forall l | 1 <= l <= 16
        ensures bits[..17][l] == Num(cs, 256, l, l)
      {
        RealCounts(counted, cs, bits0, i, l);
      }
      forall p | 0 <= p < Num(cs, 256, 1, MAX_CLEN)
        ensures Len(bits[..17], p) == cs[v[p]]
      {
        var l := cs[v[p]];
        NumPrefix(bits[..17], cs, l - 1);
        NumPrefix(bits[..17], cs, l);
        LenUnique(bits[..17], p, l);
      }
    }
  }

  lemma Finished(counted: seq<nat>, cs: seq<nat>, bits: seq<Byte>, v: seq<Byte>)
    requires |counted| == |cs| == SYMBOLS && Sized(counted, cs) && counted[256] > 0 && Live(counted) < 256
    requires forall i :: 0 <= i < SYMBOLS ==> cs[i] <= MAX_CLEN
    requires |bits| == MAX_CLEN + 1 && |v| == 256 && Listed(cs, v, Num(cs, 256, 1, MAX_CLEN), MAX_CLEN + 1, 0)
    requires Total(bits, 16) == Num(cs, SYMBOLS, 1, MAX_CLEN) - 1 && Kraft(bits, 16) < Pow2(16)
    ensures Optimal(counted, JHuffTbl(bits[..17], v))
  {
    hide Pow2, Total, Kraft;
    var n := Num(cs, 256, 1, MAX_CLEN);
    NumLive(counted, cs, 256);
    NumLive(counted, cs, SYMBOLS);
    assert counted[..SYMBOLS] == counted;
    SamePrefix(bits, bits[..17], 16);
    GoodByTop(bits[..17]);
    forall s | 0 <= s < 256
      ensures counted[s] > 0 <==> exists p :: 0 <= p < n && v[p] == s
    {
      assert cs[s] >= 1 ==> Before(cs[s], s, MAX_CLEN + 1, 0);
    }
  }

  // jpeg_gen_optimal_table. Some real symbol was counted, the counts total at most 10^9, and at most 254 real symbols
  // have one. It fails only on a code length above 32, which takes a total of at least Fibonacci number 35.
  method GenOptimalTable(freq: array<nat>, ghost used: nat) returns (ok: bool, tbl: JHuffTbl, ghost cs: seq<nat>)
    requires freq.Length == SYMBOLS && freq[256] == 0 && Sum(freq[..]) <= LIMIT
    requires used < 256 && freq[used] > 0 && Live(freq[..]) <= 254
    modifies freq
    ensures ok ==> Optimal(old(freq[..])[256 := 1], tbl)
    ensures |cs| == SYMBOLS && Sized(old(freq[..])[256 := 1], cs) && (ok ==> Graded(cs, tbl))
    ensures old(Sum(freq[..])) + 1 < LONG_CODE_TOTAL ==> ok
  {
    ghost var counted := freq[..][256 := 1];
    SumUpdate(freq[..], 256, 1);
    hide Sum, Live, Pow2, Kraft, Total, Sized, Listed, Full, Optimal, Num, KraftUnits, Fib, JHuffTbl.Shaped, Graded, InSlots, Longest;
    tbl := JHuffTbl([], []);
    var codesize := HuffmanSizes(freq, used);
    cs := codesize[..];
    SizedCount(counted, cs);
    var bits;
    ok, bits := CountLengths(codesize);
    if !ok {
      if Sum(counted) < LONG_CODE_TOTAL { LengthsFit(counted, cs); }
      return;
    }
    StartsFull(counted, cs, bits[..]);
    tbl := MakeTable(codesize, bits, counted);
  }

  // The counters and the list of symbols make the table.
  method MakeTable(codesize: array<nat>, bits: array<Byte>, ghost counted: seq<nat>) returns (tbl: JHuffTbl)
    requires |counted| == codesize.Length == SYMBOLS && bits.Length == MAX_CLEN + 1 && counted[256] == 1 && Live(counted) < 256
    requires Sized(counted, codesize[..]) && forall i :: 0 <= i < SYMBOLS ==> codesize[i] <= MAX_CLEN
    requires Full(bits[..], MAX_CLEN, Num(codesize[..], SYMBOLS, 1, MAX_CLEN))
    requires forall l :: 1 <= l <= MAX_CLEN ==> bits[l] == Num(codesize[..], SYMBOLS, l, l)
    modifies bits
    ensures Optimal(counted, tbl) && Graded(codesize[..], tbl)
  {
    hide Sum, Live, Pow2, Kraft, Total, Sized, Listed, Full, Optimal, Num, Fib, JHuffTbl.Shaped, Graded, Longest;
    hide KraftAll, Before, InSlots, OfLength, Ordered;
    FullStarts(bits[..], Num(codesize[..], SYMBOLS, 1, MAX_CLEN));
    ghost var cs := codesize[..];
    ghost var total := Num(cs, SYMBOLS, 1, MAX_CLEN);
    SizedCount(counted, cs);
    ghost var bits0 := bits[..];
    LimitLengths(bits, total);
    ghost var bits1 := bits[..];
    RemovePseudo(bits, total);
    var huffval := ListSymbols(codesize);
    tbl := JHuffTbl(bits[..17], huffval[..]);
    assert bits[..][..17] == bits[..17];
    Finished(counted, cs, bits[..], huffval[..]);
    TableShaped(counted, cs, tbl);
    TableGraded(counted, cs, bits0, bits1, bits[..], huffval[..]);
  }

  lemma FullStarts(bits: seq<Byte>, total: nat)
    requires Full(bits, MAX_CLEN, total)
    ensures |bits| == MAX_CLEN + 1 && bits[0] == 0
  {
  }

  lemma TableShaped(counted: seq<nat>, cs: seq<nat>, tbl: JHuffTbl)
    requires |counted| == |cs| == SYMBOLS && Sized(counted, cs) && Optimal(counted, tbl)
    requires forall i :: 0 <= i < SYMBOLS ==> cs[i] <= MAX_CLEN
    ensures tbl.Shaped() && Total(tbl.bits, 16) == Num(cs, 256, 1, MAX_CLEN) <= 256
  {
    NumLive(counted, cs, 256);
  }

  lemma SizedCount(counted: seq<nat>, cs: seq<nat>)
    requires |counted| == |cs| == SYMBOLS && Sized(counted, cs) && Live(counted) < 256 && counted[256] > 0
    ensures 1 <= Num(cs, SYMBOLS, 1, MAX_CLEN) < 256 || exists i :: 0 <= i < SYMBOLS && cs[i] > MAX_CLEN
    ensures Num(cs, SYMBOLS, 1, MAX_CLEN) < 256
  {
    NumLive(counted, cs, SYMBOLS);
    assert counted[..SYMBOLS] == counted;
    assert cs[256] > 0;
  }

  lemma StartsFull(counted: seq<nat>, cs: seq<nat>, bits: seq<Byte>)
    requires |counted| == |cs| == SYMBOLS && Sized(counted, cs) && |bits| == MAX_CLEN + 1 && bits[0] == 0
    requires forall i :: 0 <= i < SYMBOLS ==> cs[i] <= MAX_CLEN
    requires Total(bits, MAX_CLEN) == Num(cs, SYMBOLS, 1, MAX_CLEN) < 256 && Kraft(bits, MAX_CLEN) == KraftUnits(cs, SYMBOLS)
    ensures Full(bits, MAX_CLEN, Num(cs, SYMBOLS, 1, MAX_CLEN))
  {
    UnitsOfKraft(cs, SYMBOLS);
    Pow2Consts32();
  }

  // The coder accepts the table, for DC just when no symbol above 15 was counted; every counted symbol then has a code
  // of 1 to 16 bits that is not all ones, and no other symbol has one.
  lemma OptimalAccepted(counted: seq<nat>, tbl: JHuffTbl, isDC: bool)
    requires |counted| == SYMBOLS && Optimal(counted, tbl)
    ensures GoodTable(tbl, isDC) <==> (isDC ==> forall s :: 16 <= s < 256 ==> counted[s] == 0)
  {
    var n := Total(tbl.bits, 16);
    if isDC && forall s :: 16 <= s < 256 ==> counted[s] == 0 {
      forall p | 0 <= p < n
        ensures tbl.huffval[p] <= 15
      {
        assert counted[tbl.huffval[p]] > 0;
      }
    }
  }

  // A symbol counted more often has no longer code, unless some length had to be limited; then a symbol that Huffman's procedure
  // gave a shorter one still has no longer one.
  lemma OptimalOrder(counted: seq<nat>, cs: seq<nat>, tbl: JHuffTbl, isDC: bool, d: CDerived, s: Byte, t: Byte)
    requires |counted| == |cs| == SYMBOLS && Sized(counted, cs) && Optimal(counted, tbl) && Graded(cs, tbl)
    requires GoodTable(tbl, isDC) && Derived(tbl, d) && counted[s] > 0 && counted[t] > 0
    ensures (forall i :: 0 <= i < SYMBOLS ==> cs[i] <= 16) ==> d.ehufsi[s] == cs[s] && (counted[s] > counted[t] ==> d.ehufsi[s] <= d.ehufsi[t])
    ensures cs[s] < cs[t] ==> d.ehufsi[s] <= d.ehufsi[t]
  {
    hide Optimal, Derived, GoodTable, Sum, Fib, KraftAll, Kraft, Total, Len;
    var p := PlaceOf(counted, tbl, isDC, d, s);
    var q := PlaceOf(counted, tbl, isDC, d, t);
    if counted[s] > counted[t] { assert Precedes(counted, s, t); }
    if cs[s] < cs[t] {
      LenGrows(tbl.bits, p, q);
    }
  }

  // The lengths of the derived codes, and that of the symbol that keeps the code of all ones free.
  function Lengths(d: CDerived, cs: seq<nat>): (r: seq<nat>)
    requires |cs| == SYMBOLS && |d.ehufsi| == 256
    ensures |r| == SYMBOLS
  {
    seq(SYMBOLS, i requires 0 <= i < SYMBOLS => if i < 256 then d.ehufsi[i] else cs[i])
  }

  // Unless some length had to be limited, no code takes fewer bits for all that was counted.
  lemma OptimalCheapest(counted: seq<nat>, cs: seq<nat>, tbl: JHuffTbl, isDC: bool, d: CDerived, l: seq<nat>, top: nat)
    requires |counted| == |cs| == SYMBOLS && Sized(counted, cs) && Optimal(counted, tbl) && Graded(cs, tbl)
    requires GoodTable(tbl, isDC) && Derived(tbl, d) && (forall i :: 0 <= i < SYMBOLS ==> cs[i] <= 16) && Fits(counted, l, top)
    ensures Cost(counted, Lengths(d, cs), SYMBOLS) <= Cost(counted, l, SYMBOLS)
  {
    hide Optimal, GoodTable, Graded, Fib, Sum, KraftAll, Ordered, Cost, Fits, Total, Len, Code;
    var m := Lengths(d, cs);
    forall i | 0 <= i < SYMBOLS && counted[i] > 0
      ensures m[i] == cs[i]
    {
      if i < 256 { OptimalOrder(counted, cs, tbl, isDC, d, i, i); }
    }
    CostSame(counted, m, cs, SYMBOLS);
  }

  lemma PlaceOf(counted: seq<nat>, tbl: JHuffTbl, isDC: bool, d: CDerived, s: Byte) returns (p: nat)
    requires |counted| == SYMBOLS && Optimal(counted, tbl) && GoodTable(tbl, isDC) && Derived(tbl, d) && counted[s] > 0
    ensures |tbl.bits| == 17 && p < Total(tbl.bits, 16) <= 256 == |tbl.huffval| && tbl.huffval[p] == s
    ensures d.ehufsi[s] == Len(tbl.bits, p)
  {
    hide Len, Total, Code;
    p :| 0 <= p < Total(tbl.bits, 16) && tbl.huffval[p] == s;
  }

  lemma LenGrows(bits: seq<Byte>, p: nat, q: nat)
    requires |bits| == 17 && p <= q < Total(bits, 16)
    ensures Len(bits, p) <= Len(bits, q)
  {
    if Len(bits, q) < Len(bits, p) { TotalGrows(bits, Len(bits, q), Len(bits, p) - 1); }
  }

  // No length is limited unless the counts total at least Fibonacci number 19.
  lemma NoneLimited(counted: seq<nat>, cs: seq<nat>, i: nat)
    requires |counted| == |cs| == SYMBOLS && Sized(counted, cs) && Sum(counted) < 4181 && i < SYMBOLS
    ensures cs[i] <= 16
  {
    assert Fib(9) == 34 && Fib(10) == 55;
    assert Fib(15) == 610 && Fib(16) == 987;
    assert Fib(19) == 4181;
    hide Fib, Sum, KraftAll, Ordered;
    if cs[i] > 16 { FibGrows(19, cs[i] + 2); }
  }

  lemma OptimalCodes(counted: seq<nat>, tbl: JHuffTbl, isDC: bool, d: CDerived, s: Byte)
    requires |counted| == SYMBOLS && Optimal(counted, tbl) && GoodTable(tbl, isDC) && Derived(tbl, d)
    ensures d.ehufsi[s] != 0 <==> counted[s] > 0
    ensures counted[s] > 0 ==> 1 <= d.ehufsi[s] <= 16 && d.ehufco[s] + 1 < Pow2(d.ehufsi[s])
  {
    DerivedCodes(tbl, isDC, d, s);
  }
}
