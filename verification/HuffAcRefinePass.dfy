// AC refinement in the decoder: the coefficients on the way to the next new one, and their correction bits.
module HuffAcRefinePass {
  import opened Numbers
  import opened ArithModel
  import opened HuffTokens
  import opened HuffCursor
  import opened HuffWrites
  import opened HuffReader
  import opened HuffEobRun
  import opened HuffAcFirst
  import opened HuffAcRefine

  // A coefficient of the band is as before this scan, or an earlier attempt has already corrected it.
  ghost predicate RefinableAt(c: int, v: int, al: nat) {
    c == Prior(v, al) || (Abs(v) > 1 && c == v * Pow2(al))
  }

  ghost predicate Refinable(area: seq<int>, at: nat, order: seq<nat>, a: seq<int>, al: nat, k: nat, se: nat)
    requires IsOrder(order) && |a| == 64 && at + 64 <= |area|
  {
    forall i :: k <= i <= se && i < 64 ==> RefinableAt(area[at + order[i]], a[i], al)
  }

  lemma NonZeroBefore(c: int, v: int, al: nat)
    requires RefinableAt(c, v, al)
    ensures c != 0 <==> Abs(v) > 1
  {
    PriorStep(v, al);
    var p := Pow2(al);
    hide Prior, Pow2;
    if c != Prior(v, al) {
      if v > 0 { MulLe(1, v, p); } else { MulLe(1, -v, p); MulNeg(-v, p); }
    }
  }

  // What a correction bit does to the coefficient, whether or not it has been done before.
  lemma Corrected(c: int, v: int, al: nat)
    requires RefinableAt(c, v, al) && Abs(v) > 1
    ensures var p := Pow2(al);
      v * p == if Abs(v) % 2 == 1 && c / p % 2 == 0 then (if c >= 0 then c + p else c - p) else c
  {
    PriorStep(v, al);
    var p, q := Pow2(al), Abs(v) / 2;
    assert Pow2(al + 1) == 2 * p;
    PriorBit(v, al, p);
    hide Prior, Pow2;
    if v > 0 { Shifted(v, p); } else { Shifted(v, p); }
  }

  lemma Shifted(x: int, p: nat)
    requires p >= 1
    ensures x * p / p == x
  {
    ExactDiv(x * p, x, p);
  }

  lemma ExactDiv(y: int, x: int, p: nat)
    requires p >= 1 && y == x * p
    ensures y / p == x
  {
    var q := y / p;
    assert y == q * p + y % p;
    if q < x {
      assert (x - q) * p == y % p;
      MulLe(1, x - q, p);
    } else if q > x {
      assert (q - x) * p == -(y % p);
      MulLe(1, q - x, p);
    }
  }

  lemma PriorBit(v: int, al: nat, p: nat)
    requires p == Pow2(al) && Abs(v) > 1
    ensures Prior(v, al) / p % 2 == 0 && (Prior(v, al) >= 0 <==> v >= 0)
  {
    PriorStep(v, al);
    var q := Abs(v) / 2;
    assert Pow2(al + 1) == 2 * p;
    hide Pow2;
    var m := if v >= 0 then 2 * q else -(2 * q);
    MulShift(q, p);
    MulNeg(2 * q, p);
    assert Prior(v, al) == m * p;
    hide Prior;
    ExactDiv(Prior(v, al), m, p);
  }

  lemma RefinableStep(area: seq<int>, at: nat, order: seq<nat>, a: seq<int>, al: nat, k: nat, se: nat)
    requires IsOrder(order) && |a| == 64 && at + 64 <= |area| && k <= se < 64 && Refinable(area, at, order, a, al, k, se)
    ensures RefinableAt(area[at + order[k]], a[k], al) && Refinable(area, at, order, a, al, k + 1, se)
    ensures area[at + order[k]] != 0 <==> Abs(a[k]) > 1
  {
    hide Pow2, Prior;
    NonZeroBefore(area[at + order[k]], a[k], al);
  }

  lemma RefinableLater(area: seq<int>, at: nat, order: seq<nat>, a: seq<int>, al: nat, k: nat, se: nat, c: int)
    requires IsOrder(order) && |a| == 64 && at + 64 <= |area| && k <= se < 64 && Refinable(area, at, order, a, al, k + 1, se)
    ensures Refinable(area[at + order[k] := c], at, order, a, al, k + 1, se)
  {
    hide RefinableAt;
    forall i | k + 1 <= i <= se
      ensures RefinableAt(area[at + order[k] := c][at + order[i]], a[i], al)
    {
      assert order[k] != order[i];
    }
  }

  lemma CorrectedShort(c: int, v: int, al: nat)
    requires RefinableAt(c, v, al) && Abs(v) > 1 && -0x8000 <= v * Pow2(al) < 0x8000
    ensures ToShort(v * Pow2(al)) == if Abs(v) % 2 == 1 then BitAdded(c, al) else c
  {
    Corrected(c, v, al);
    hide RefinableAt, Pow2;
  }

  // The correction bit of the coefficient at this index.
  function BitFrom(input: seq<Byte>, c: Cursor, index: nat): (f: Maybe<(Cursor, seq<Write>)>)
    ensures f.Just? ==> OnlyMends(f.value.1, index)
  {
    match Bits(input, c, 1)
    case Nothing => Nothing
    case Just((next, bit)) => Just((next, if bit == 1 then [Mend(index)] else []))
  }

  predicate OnlyMends(ws: seq<Write>, index: nat) { ws == [] || ws == [Mend(index)] }

  method AddBit(area: array<int>, index: nat, al: nat)
    requires index < area.Length
    modifies area
    ensures area[..] == old(area[..])[index := BitAdded(old(area[index]), al)]
  {
    hide Pow2, ToShort;
    if area[index] / Pow2(al) % 2 == 0 {
      area[index] := ToShort(if area[index] >= 0 then area[index] + Pow2(al) else area[index] - Pow2(al));
    }
  }

  // One already-nonzero coefficient.
  method CorrectCoef(d: Reader, area: array<int>, index: nat, al: nat, ghost v: int, ghost env: Env, ghost goal: seq<Token>)
    returns (ok: bool, ghost ws: seq<Write>)
    requires d.Valid() && GoodEnv(env) && index < area.Length
    modifies d`pos, d`unreadMarker, d`getBuffer, d`bitsLeft, d`held, d`insufficientData, area
    ensures d.Unmarked(ok) && (if ok then d.Valid() else area[..] == old(area[..]))
    ensures Tells(ok, d.avail == |d.input|, BitFrom(d.input, old(d.Cur()), index), (d.Cur(), ws))
    ensures ok ==> Wrote(Corrects(al), old(area[..]), area[..], ws)
    ensures old(d.InSync(env, goal)) && goal != [] && goal[0] == Raw(Abs(v) % 2, 1)
            && RefinableAt(old(area[index]), v, al) && Abs(v) > 1 && -0x8000 <= v * Pow2(al) < 0x8000 ==>
      (d.avail == |d.input| ==> ok)
      && (ok ==> d.InSync(env, goal[1..]) && area[..] == old(area[..])[index := ToShort(v * Pow2(al))])
  {
    Pow2First();
    ghost var before, c := area[..], area[index];
    ghost var sync := d.InSync(env, goal) && goal != [] && goal[0] == Raw(Abs(v) % 2, 1)
      && RefinableAt(c, v, al) && Abs(v) > 1 && -0x8000 <= v * Pow2(al) < 0x8000;
    if sync { CorrectedShort(c, v, al); }
    hide Reader.Valid, Reader.InSync, GoodEnv, RefinableAt, Pow2, ToShort, Bits, Wrote, BitAdded;
    WroteNothing(Corrects(al), before);
    WroteOne(Corrects(al), before, Mend(index));
    var bit;
    ok, bit := d.ReadRaw(1, env, goal);
    ws := if ok && bit == 1 then [Mend(index)] else [];
    if ok && bit == 1 {
      AddBit(area, index, al);
    }
  }

  // Correction bits of the coefficients from k up to z, and what comes after them.
  ghost predicate AtCorr(d: Reader, env: Env, a: seq<int>, k: nat, z: nat, after: seq<Token>)
    requires GoodEnv(env) && d.Valid() && z <= |a|
    reads d`pos, d`avail, d`unreadMarker, d`bitsLeft, d`getBuffer, d`held, d`pad, d`landing, d`insufficientData
  {
    d.InSync(env, Raws(Corr(a, k, z)) + after)
  }

  lemma CorrNext(a: seq<int>, k: nat, z: nat, after: seq<Token>)
    requires k < z <= |a|
    ensures var goal := Raws(Corr(a, k, z)) + after; var rest := Raws(Corr(a, k + 1, z)) + after;
      if Abs(a[k]) > 1 then goal != [] && goal[0] == Raw(Abs(a[k]) % 2, 1) && goal[1..] == rest else goal == rest
  {
    var more := Corr(a, k + 1, z);
    assert [] + more == more;
    if Abs(a[k]) > 1 {
      RawsConcat([Abs(a[k]) % 2], more);
      Ungrouped([Raw(Abs(a[k]) % 2, 1)], Raws(more), after);
      assert Raws([Abs(a[k]) % 2]) == [Raw(Abs(a[k]) % 2, 1)];
    }
  }

  lemma PlacedNext(area: seq<int>, at: nat, order: seq<nat>, a: seq<int>, al: nat, ss: nat, k: nat)
    requires IsOrder(order) && |a| == 64 && ss <= k < 64 && at + 64 <= |area|
    ensures Placed(area, at, order, a, al, ss, k + 1)
      == if a[k] == 0 then Placed(area, at, order, a, al, ss, k)
         else Placed(area, at, order, a, al, ss, k)[at + order[k] := ToShort(a[k] * Pow2(al))]
  {
  }

  // The coefficients from k up to z are to be passed over, with their correction bits; none of them is new.
  ghost predicate Passing(d: Reader, env: Env, area: seq<int>, at: nat, order: seq<nat>, a: seq<int>, al: nat,
                          k: nat, z: nat, se: nat, after: seq<Token>): (yes: bool)
    requires GoodEnv(env) && d.Valid() && IsOrder(order) && at + 64 <= |area|
    ensures yes ==> |a| == 64 && k <= z <= se + 1 <= 64
    reads d`pos, d`avail, d`unreadMarker, d`bitsLeft, d`getBuffer, d`held, d`pad, d`landing, d`insufficientData
  {
    && |a| == 64 && k <= z <= se + 1 <= 64 && AtCorr(d, env, a, k, z, after) && FitsShort(a, al)
    && Refinable(area, at, order, a, al, k, se) && (forall i :: k <= i < z ==> Abs(a[i]) != 1)
  }

  lemma StillPassing(area: seq<int>, at: nat, order: seq<nat>, a: seq<int>, al: nat, k: nat, z: nat, se: nat, after: seq<Token>)
    requires IsOrder(order) && |a| == 64 && at + 64 <= |area| && k < z <= se + 1 <= 64
    requires Refinable(area, at, order, a, al, k, se) && (forall i :: k <= i < z ==> Abs(a[i]) != 1)
    ensures var next := area[at + order[k] := ToShort(a[k] * Pow2(al))];
      && Refinable(next, at, order, a, al, k + 1, se) && Refinable(area, at, order, a, al, k + 1, se)
      && (area[at + order[k]] != 0 <==> Abs(a[k]) > 1) && (a[k] == 0 || Abs(a[k]) > 1)
      && RefinableAt(area[at + order[k]], a[k], al)
      && Placed(area, at, order, a, al, k, k + 1) == if Abs(a[k]) > 1 then next else area
  {
    PlacedNext(area, at, order, a, al, k, k);
    RefinableStep(area, at, order, a, al, k, se);
    RefinableLater(area, at, order, a, al, k, se, ToShort(a[k] * Pow2(al)));
  }

  // The bit is there for a coefficient that is not zero.
  function CoefFrom(input: seq<Byte>, nonzero: bool, c: Cursor, index: nat): (f: Maybe<(Cursor, seq<Write>)>)
    ensures f.Just? ==> OnlyMends(f.value.1, index) && (f.value.1 != [] ==> nonzero)
  {
    if nonzero then BitFrom(input, c, index) else Just((c, []))
  }

  // What is done with one of these coefficients.
  method PassCoef(d: Reader, area: array<int>, at: nat, order: seq<nat>, k: nat, al: nat,
                  ghost se: nat, ghost env: Env, ghost a: seq<int>, ghost z: nat, ghost after: seq<Token>)
    returns (ok: bool, zero: bool, ghost ws: seq<Write>)
    requires d.Valid() && GoodEnv(env) && IsOrder(order) && k < 64 && at + 64 <= area.Length
    modifies d`pos, d`unreadMarker, d`getBuffer, d`bitsLeft, d`held, d`insufficientData, area
    ensures d.Unmarked(ok) && (if ok then d.Valid() else area[..] == old(area[..]))
    ensures (zero <==> old(area[at + NaturalAt(order, k)]) == 0) && (zero ==> ok && unchanged(d) && area[..] == old(area[..]))
    ensures Tells(ok, d.avail == |d.input|,
                  CoefFrom(d.input, old(area[at + NaturalAt(order, k)]) != 0, old(d.Cur()), at + NaturalAt(order, k)), (d.Cur(), ws))
    ensures ok ==> Wrote(Corrects(al), old(area[..]), area[..], ws)
    ensures k < z && old(Passing(d, env, area[..], at, order, a, al, k, z, se, after)) ==>
      (d.avail == |d.input| ==> ok) && (zero <==> a[k] == 0) && (!zero ==> Abs(a[k]) > 1)
      && (ok ==> Passing(d, env, area[..], at, order, a, al, k + 1, z, se, after)
                 && area[..] == Placed(old(area[..]), at, order, a, al, k, k + 1))
  {
    ghost var now := area[..];
    ghost var sync := k < z && Passing(d, env, now, at, order, a, al, k, z, se, after);
    ghost var goal := if sync then Raws(Corr(a, k, z)) + after else [];
    hide Wrote, BitFrom;
    hide Reader.Valid, Reader.InSync, GoodEnv, RefinableAt, Pow2, Placed, ToShort, Corr, Raws, Refinable, IsOrder, FitsShort;
    if sync {
      StillPassing(now, at, order, a, al, k, z, se, after);
      CorrNext(a, k, z, after);
      ShortAt(a, al, k);
    }
    ok, zero, ws := true, true, [];
    WroteNothing(Corrects(al), now);
    if area[at + NaturalAt(order, k)] != 0 {
      zero := false;
      ok, ws := CorrectCoef(d, area, at + NaturalAt(order, k), al, if sync then a[k] else 0, env, goal);
    }
  }

  lemma ShortAt(a: seq<int>, al: nat, k: nat)
    requires FitsShort(a, al) && k < |a|
    ensures -0x8000 <= a[k] * Pow2(al) < 0x8000
  {
  }

  // Coefficient z itself is zero before this scan.
  lemma Passing0(d: Reader, env: Env, area: seq<int>, at: nat, order: seq<nat>, a: seq<int>, al: nat, z: nat, se: nat, after: seq<Token>)
    requires GoodEnv(env) && d.Valid() && IsOrder(order) && at + 64 <= |area|
    requires Passing(d, env, area, at, order, a, al, z, z, se, after)
    ensures d.InSync(env, after) && (z <= se && Abs(a[z]) <= 1 ==> area[at + order[z]] == 0)
  {
    assert Raws([]) + after == after;
    hide Refinable, GoodEnv, Reader.InSync;
    if z <= se { RefinableStep(area, at, order, a, al, z, se); }
  }

  // Which coefficients of a block are not zero, in zigzag order.
  function NonZeros(area: seq<int>, at: nat, order: seq<nat>): (nz: seq<bool>)
    requires IsOrder(order) && at + 64 <= |area|
    ensures |nz| == 64
  {
    seq(64, k requires 0 <= k < 64 => area[at + order[k]] != 0)
  }

  // Pass r coefficients that are zero, and those in between; all the rest if r is negative.
  function PassFrom(input: seq<Byte>, nz: seq<bool>, c: Cursor, at: nat, order: seq<nat>, k: nat, r: int, se: nat,
                    ws: seq<Write>): (f: Outcome<(Cursor, nat)>)
    requires IsOrder(order) && |nz| == 64 && se < 64
    ensures ws <= f.ws && (f.Done? ==> k <= f.value.1 && (f.value.1 <= se ==> !nz[f.value.1]))
    decreases se + 1 - k
  {
    if k > se || (!nz[k] && r == 0) then Done((c, k), ws)
    else
      match CoefFrom(input, nz[k], c, at + order[k])
      case Nothing => Stuck(ws)
      case Just((next, w)) => PassFrom(input, nz, next, at, order, k + 1, if nz[k] then r else r - 1, se, ws + w)
  }

  lemma PassNext(input: seq<Byte>, nz: seq<bool>, c: Cursor, at: nat, order: seq<nat>, k: nat, r: int, se: nat, ws: seq<Write>)
    requires IsOrder(order) && |nz| == 64 && se < 64
    ensures PassFrom(input, nz, c, at, order, k, r, se, ws) ==
      if k > se || (!nz[k] && r == 0) then Done((c, k), ws)
      else
        match CoefFrom(input, nz[k], c, at + order[k])
        case Nothing => Stuck(ws)
        case Just((next, w)) => PassFrom(input, nz, next, at, order, k + 1, if nz[k] then r else r - 1, se, ws + w)
  {
  }

  // The band from coefficient k on is as it was in area0.
  ghost predicate Untouched(area0: seq<int>, area: seq<int>, at: nat, order: seq<nat>, k: nat, se: nat) {
    && IsOrder(order) && at + 64 <= |area0| == |area|
    && forall i :: k <= i <= se && i < 64 ==> area[at + order[i]] == area0[at + order[i]]
  }

  // Coefficient k has been reached by adding bits to coefficients that are not zero in area0.
  ghost predicate Gone(m: Mender, area0: seq<int>, start: seq<int>, area: seq<int>, at: nat, order: seq<nat>, k: nat, se: nat, ws: seq<Write>) {
    Untouched(area0, area, at, order, k, se) && Wrote(m, start, area, ws) && Fitting(area0, ws) && Puts(ws, at) == []
  }

  lemma NotGone(m: Mender, area0: seq<int>, area: seq<int>, at: nat, order: seq<nat>, k: nat, se: nat)
    requires Untouched(area0, area, at, order, k, se)
    ensures Gone(m, area0, area, area, at, order, k, se, [])
  {
    WroteNothing(m, area);
  }

  lemma GoneOn(m: Mender, area0: seq<int>, start: seq<int>, mid: seq<int>, area: seq<int>, at: nat, order: seq<nat>, k: nat, se: nat,
               ws: seq<Write>, w: seq<Write>)
    requires Gone(m, area0, start, mid, at, order, k, se, ws) && k <= se < 64 && Wrote(m, mid, area, w)
    requires OnlyMends(w, at + order[k]) && (w != [] ==> area0[at + order[k]] != 0)
    ensures Gone(m, area0, start, area, at, order, k + 1, se, ws + w)
  {
    UntouchedOn(m, area0, mid, area, at, order, k, se, w);
    WroteMore(m, start, mid, area, ws, w);
    hide Untouched, Wrote, Fitting, Puts;
    FittingConcat(area0, ws, w);
    PutsConcat(ws, w, at);
    MendsFit(area0, w, at, at + order[k]);
  }

  lemma MendsFit(area0: seq<int>, w: seq<Write>, at: nat, index: nat)
    requires OnlyMends(w, index) && index < |area0| && (w != [] ==> area0[index] != 0)
    ensures Fitting(area0, w) && Puts(w, at) == []
  {
    if w != [] { PutsOne(w[0], at); }
  }

  // Writing to coefficient k leaves those after it alone.
  lemma UntouchedOn(m: Mender, area0: seq<int>, mid: seq<int>, area: seq<int>, at: nat, order: seq<nat>, k: nat, se: nat, w: seq<Write>)
    requires Untouched(area0, mid, at, order, k, se) && Wrote(m, mid, area, w) && k < 64
    requires forall i :: 0 <= i < |w| ==> w[i].at == at + order[k]
    ensures Untouched(area0, area, at, order, k + 1, se)
  {
    hide DoAll, SeenAt;
    forall i | k + 1 <= i <= se && i < 64
      ensures area[at + order[i]] == area0[at + order[i]]
    {
      assert order[k] != order[i];
      DoAllAt(m, mid, w, at + order[i]);
      Unseen(m, mid[at + order[i]], at + order[i], w);
    }
  }

  // The next coefficient is still as it was.
  lemma GoneTo(m: Mender, area0: seq<int>, start: seq<int>, area: seq<int>, at: nat, order: seq<nat>, k: nat, se: nat, ws: seq<Write>)
    requires Gone(m, area0, start, area, at, order, k, se, ws) && k <= se < 64
    ensures IsOrder(order) && at + 64 <= |area0| == |area| && order[k] == NaturalAt(order, k)
    ensures (NonZeros(area0, at, order)[k] <==> area[at + order[k]] != 0) && (NonZeros(area0, at, order)[k] <==> area0[at + order[k]] != 0)
  {
  }

  // Pass r coefficients that are still zero, correcting the old ones on the way.
  method PassOver(d: Reader, area: array<int>, at: nat, order: seq<nat>, from: nat, zeros: nat, se: nat, al: nat,
                  ghost area0: seq<int>, ghost env: Env, ghost a: seq<int>, ghost z: nat, ghost after: seq<Token>)
    returns (ok: bool, k: nat, ghost ws: seq<Write>)
    requires d.Valid() && GoodEnv(env) && IsOrder(order) && from <= se < 64 && at + 64 <= area.Length == |area0|
    requires Untouched(area0, area[..], at, order, from, se)
    modifies d`pos, d`unreadMarker, d`getBuffer, d`bitsLeft, d`held, d`insufficientData, area
    ensures d.Unmarked(ok) && (ok ==> d.Valid()) && from <= k <= se + 1
    ensures Follows(ok, d.avail == |d.input|,
                    PassFrom(d.input, NonZeros(area0, at, order), old(d.Cur()), at, order, from, zeros, se, []), (d.Cur(), k), ws)
    ensures Gone(Corrects(al), area0, old(area[..]), area[..], at, order, k, se, ws)
    ensures old(Passing(d, env, area[..], at, order, a, al, from, z, se, after))
            && z <= se && z == Passed(a, from, zeros, se) && Abs(a[z]) <= 1 ==>
      (d.avail == |d.input| ==> ok) && k <= z && area[..] == Placed(old(area[..]), at, order, a, al, from, k)
      && (ok ==> k == z && Passing(d, env, area[..], at, order, a, al, z, z, se, after))
  {
    hide Reader.Valid, Reader.InSync, GoodEnv, RefinableAt, Pow2, Placed, ToShort, Corr, Raws, Refinable, IsOrder, Passing, Passed;
    hide PassFrom, CoefFrom, Gone, NonZeros, Untouched, Wrote;
    ghost var start, m, nz := area[..], Corrects(al), NonZeros(area0, at, order);
    ghost var whole := PassFrom(d.input, nz, d.Cur(), at, order, from, zeros, se, []);
    ghost var sync := Passing(d, env, start, at, order, a, al, from, z, se, after)
            && z <= se && z == Passed(a, from, zeros, se) && Abs(a[z]) <= 1;
    k, ok, ws := from, true, [];
    NotGone(m, area0, start, at, order, from, se);
    var r := zeros;
    if sync { PlacedNone(start, at, order, a, al, from); }
    while k <= se
      invariant Gone(m, area0, start, area[..], at, order, k, se, ws) && PassFrom(d.input, nz, d.Cur(), at, order, k, r, se, ws) == whole
      invariant from <= k <= se + 1 && ok && d.Valid() && d.Unmarked(true)
      invariant sync ==> k <= z && Passing(d, env, area[..], at, order, a, al, k, z, se, after) && Passed(a, k, r, se) == z
      invariant sync ==> area[..] == Placed(start, at, order, a, al, from, k)
      decreases se + 1 - k
    {
      if sync {
        PassedStep(a, k, r, se);
        if k == z { Passing0(d, env, area[..], at, order, a, al, z, se, after); }
        else { PlacedAgain(start, at, order, a, al, from, k, k + 1); }
      }
      var zero;
      ghost var w, mid := [], area[..];
      PassNext(d.input, nz, d.Cur(), at, order, k, r, se, ws);
      GoneTo(m, area0, start, mid, at, order, k, se, ws);
      ok, zero, w := PassCoef(d, area, at, order, k, al, se, env, a, z, after);
      if !ok {
        return;
      }
      if zero {
        if r == 0 {
          break;
        }
        r := r - 1;
      }
      GoneOn(m, area0, start, mid, area[..], at, order, k, se, ws, w);
      ws := ws + w;
      k := k + 1;
    }
    PassNext(d.input, nz, d.Cur(), at, order, k, r, se, ws);
  }

  lemma PlacedNone(area: seq<int>, at: nat, order: seq<nat>, a: seq<int>, al: nat, ss: nat)
    requires IsOrder(order) && |a| == 64 && ss <= 64 && at + 64 <= |area|
    ensures Placed(area, at, order, a, al, ss, ss) == area
  {
  }

  // The coefficients after the end of band
  method CorrectRest(d: Reader, area: array<int>, at: nat, order: seq<nat>, from: nat, se: nat, al: nat,
                     ghost area0: seq<int>, ghost env: Env, ghost a: seq<int>, ghost after: seq<Token>)
    returns (ok: bool, k: nat, ghost ws: seq<Write>)
    requires d.Valid() && GoodEnv(env) && IsOrder(order) && se < 64 && at + 64 <= area.Length == |area0|
    requires Untouched(area0, area[..], at, order, from, se)
    modifies d`pos, d`unreadMarker, d`getBuffer, d`bitsLeft, d`held, d`insufficientData, area
    ensures d.Unmarked(ok) && (ok ==> d.Valid()) && from <= k
    ensures Follows(ok, d.avail == |d.input|,
                    PassFrom(d.input, NonZeros(area0, at, order), old(d.Cur()), at, order, from, -1, se, []), (d.Cur(), k), ws)
    ensures Gone(Corrects(al), area0, old(area[..]), area[..], at, order, k, se, ws)
    ensures old(Passing(d, env, area[..], at, order, a, al, from, se + 1, se, after)) ==>
      (d.avail == |d.input| ==> ok) && k <= se + 1 && area[..] == Placed(old(area[..]), at, order, a, al, from, k)
      && (ok ==> k == se + 1 && d.InSync(env, after))
  {
    hide Reader.Valid, Reader.InSync, GoodEnv, RefinableAt, Pow2, Placed, ToShort, Corr, Raws, Refinable, IsOrder, Passing;
    hide PassFrom, CoefFrom, Gone, NonZeros, Untouched, Wrote;
    ghost var start, m, nz := area[..], Corrects(al), NonZeros(area0, at, order);
    ghost var whole := PassFrom(d.input, nz, d.Cur(), at, order, from, -1, se, []);
    ghost var sync := Passing(d, env, start, at, order, a, al, from, se + 1, se, after);
    k, ok, ws := from, true, [];
    NotGone(m, area0, start, at, order, from, se);
    if sync { PlacedNone(start, at, order, a, al, from); }
    ghost var r := -1;
    while k <= se
      invariant Gone(m, area0, start, area[..], at, order, k, se, ws) && PassFrom(d.input, nz, d.Cur(), at, order, k, r, se, ws) == whole && r < 0
      invariant from <= k && ok && d.Valid() && d.Unmarked(true)
      invariant sync ==> Passing(d, env, area[..], at, order, a, al, k, se + 1, se, after)
      invariant sync ==> area[..] == Placed(start, at, order, a, al, from, k)
    {
      if sync { PlacedAgain(start, at, order, a, al, from, k, k + 1); }
      var zero;
      ghost var w, mid := [], area[..];
      PassNext(d.input, nz, d.Cur(), at, order, k, r, se, ws);
      GoneTo(m, area0, start, mid, at, order, k, se, ws);
      ok, zero, w := PassCoef(d, area, at, order, k, al, se, env, a, se + 1, after);
      if !ok {
        return;
      }
      GoneOn(m, area0, start, mid, area[..], at, order, k, se, ws, w);
      ws := ws + w;
      r := if zero then r - 1 else r;
      k := k + 1;
    }
    PassNext(d.input, nz, d.Cur(), at, order, k, r, se, ws);
    if sync { Passing0(d, env, area[..], at, order, a, al, se + 1, se, after); }
  }
}
