// AC refinement in the decoder, which may be suspended in the middle of a block and start it over.
module HuffAcRefineDecode {
  import opened Numbers
  import opened ArithModel
  import opened HuffTable
  import opened HuffTokens
  import opened HuffLookup
  import opened HuffCursor
  import opened HuffWrites
  import opened HuffReader
  import opened HuffEobRun
  import opened HuffAcFirst
  import opened HuffAcRefine
  import opened HuffAcRefinePass

  // The tokens of a block from coefficient k on, and what comes after them.
  function HeadThen(t: nat, a: seq<int>, k: nat, eob: nat, after: seq<Token>): seq<Token>
    requires eob < |a|
  {
    NewHead(t, a, k, 0, [], eob) + after
  }

  // What the decoder meets before the last new coefficient: a ZRL or a new coefficient, then the correction bits on the way there.
  lemma MeetNew(t: nat, a: seq<int>, k: nat, eob: nat, se: nat, after: seq<Token>)
    requires eob <= se < |a| && k <= eob && Abs(a[eob]) == 1
    ensures var (z, n) := Stop(a, k, 0, eob);
      var goal, rest := HeadThen(t, a, k, eob, after), Raws(Corr(a, k, z)) + HeadThen(t, a, z + 1, eob, after);
      && z == Passed(a, k, if n == 16 then 15 else n, se) && goal != []
      && if n == 16 then goal[0] == Sym(t, 0xF0) && goal[1..] == rest
         else goal[0] == Sym(t, 16 * n + 1) && goal[1..] != [] && goal[1..][0] == Raw(Sign(a[z]), 1) && goal[1..][1..] == rest
  {
    var (z, n) := Stop(a, k, 0, eob);
    HeadMeets(t, a, k, 0, [], eob, se);
    hide Stop, Passed, NewHead, Corr, Raws;
    var later, bits := NewHead(t, a, z + 1, 0, [], eob), Corr(a, k, z);
    assert [] + bits == bits;
    var rest := Raws(bits) + (later + after);
    Regroup(StopTokens(t, a, z, n), Raws(bits), later, after);
    if n == 16 { FirstOf(Sym(t, 0xF0), rest); } else { FirstTwo(Sym(t, 16 * n + 1), Raw(Sign(a[z]), 1), rest); }
  }

  lemma FirstOf(x: Token, rest: seq<Token>)
    ensures ([x] + rest)[0] == x && ([x] + rest)[1..] == rest
  {
  }

  lemma FirstTwo(x: Token, y: Token, rest: seq<Token>)
    ensures var all := [x] + [y] + rest; all[0] == x && all[1..] == [y] + rest && all[1..][0] == y && all[1..][1..] == rest
  {
    Ungrouped([x], [y], rest);
  }

  // Where the new coefficients are, in the order in which they come.
  ghost function News(order: seq<nat>, a: seq<int>, ss: nat, k: nat): (r: seq<nat>)
    requires IsOrder(order) && k <= |a| == 64
    ensures |r| <= if k <= ss then 0 else k - ss
  {
    if k <= ss then [] else News(order, a, ss, k - 1) + if Abs(a[k - 1]) == 1 then [order[k - 1]] else []
  }

  lemma {:induction false} NoNews(order: seq<nat>, a: seq<int>, ss: nat, k: nat, k1: nat)
    requires IsOrder(order) && k <= k1 <= |a| == 64 && forall i :: k <= i < k1 ==> Abs(a[i]) != 1
    ensures News(order, a, ss, k1) == News(order, a, ss, k)
  {
    if k < k1 { NoNews(order, a, ss, k, k1 - 1); }
  }

  lemma NextNews(order: seq<nat>, a: seq<int>, ss: nat, k: nat, next: nat)
    requires IsOrder(order) && ss <= k < next <= |a| == 64 && forall i :: k <= i < next - 1 ==> Abs(a[i]) != 1
    ensures News(order, a, ss, next) == News(order, a, ss, k) + if Abs(a[next - 1]) == 1 then [NaturalAt(order, next - 1)] else []
  {
    NoNews(order, a, ss, k, next - 1);
  }

  // The tokens for the decoder at coefficient k of the band; eob is the last new coefficient.
  ghost predicate AtRefine(d: Reader, env: Env, t: nat, area: seq<int>, at: nat, order: seq<nat>, a: seq<int>, al: nat,
                           k: nat, eob: nat, se: nat, after: seq<Token>): (yes: bool)
    requires GoodEnv(env) && d.Valid() && IsOrder(order) && at + 64 <= |area|
    ensures yes ==> |a| == 64 && eob <= se < 64 && (k <= eob ==> Abs(a[eob]) == 1)
    reads d`pos, d`avail, d`unreadMarker, d`bitsLeft, d`getBuffer, d`held, d`pad, d`landing, d`insufficientData
  {
    && |a| == 64 && eob <= se < 64 && (k <= eob ==> Abs(a[eob]) == 1) && FitsShort(a, al)
    && Refinable(area, at, order, a, al, k, se) && d.InSync(env, HeadThen(t, a, k, eob, after))
  }

  function SignFrom(input: seq<Byte>, c: Cursor, al: nat): Maybe<(Cursor, int)> {
    match Bits(input, c, 1)
    case Nothing => Nothing
    case Just((next, bit)) =>
      var p: int := Pow2(al);
      Just((next, if bit == 1 then p else -p))
  }

  // A new coefficient: its sign bit.
  method ReadSign(d: Reader, al: nat, ghost v: int, ghost env: Env, ghost goal: seq<Token>) returns (ok: bool, c: int)
    requires d.Valid() && GoodEnv(env)
    modifies d`pos, d`unreadMarker, d`getBuffer, d`bitsLeft, d`held, d`insufficientData
    ensures d.Unmarked(ok) && (ok ==> d.Valid() && c != 0)
    ensures Tells(ok, d.avail == |d.input|, SignFrom(d.input, old(d.Cur()), al), (d.Cur(), c))
    ensures old(d.InSync(env, goal)) && goal != [] && goal[0] == Raw(Sign(v), 1) && Abs(v) == 1 ==>
      (d.avail == |d.input| ==> ok) && (ok ==> c == Scaled(v, al) && d.InSync(env, goal[1..]))
  {
    Pow2First();
    hide Reader.Valid, Reader.InSync, GoodEnv, Pow2, Scaled, Bits;
    if Abs(v) == 1 { OneScaled(v, al); }
    var bit;
    ok, bit := d.ReadRaw(1, env, goal);
    var p: int := Pow2(al);
    c := if ok && bit == 1 then p else -p;
  }

  lemma OneScaled(v: int, al: nat)
    requires Abs(v) == 1
    ensures Scaled(v, al) == if Sign(v) == 1 then Pow2(al) as int else -(Pow2(al) as int)
  {
  }

  lemma StopSpan(a: seq<int>, k: nat, eob: nat)
    requires eob < |a| && k <= eob && Abs(a[eob]) == 1
    ensures var (z, n) := Stop(a, k, 0, eob);
      && k <= z <= eob && n <= 16 && (if n == 16 then a[z] == 0 && z < eob else Abs(a[z]) == 1)
      && forall i :: k <= i < z ==> Abs(a[i]) != 1
  {
  }

  function WayThen(t: nat, a: seq<int>, k: nat, z: nat, eob: nat, after: seq<Token>): seq<Token>
    requires eob < |a| && z <= |a|
  {
    Raws(Corr(a, k, z)) + HeadThen(t, a, z + 1, eob, after)
  }

  // Before the last new coefficient.
  lemma Opened(d: Reader, env: Env, t: nat, area: seq<int>, at: nat, order: seq<nat>, a: seq<int>, al: nat, k: nat, eob: nat, se: nat, after: seq<Token>)
    returns (z: nat, n: nat, goal: seq<Token>)
    requires GoodEnv(env) && d.Valid() && IsOrder(order) && at + 64 <= |area| && k <= eob
    requires AtRefine(d, env, t, area, at, order, a, al, k, eob, se, after)
    ensures d.InSync(env, goal) && n < 16 && k <= z <= eob <= se && |a| == 64 && z == Passed(a, k, n, se)
    ensures Abs(a[z]) <= 1 && (a[z] == 0 ==> n == 15) && (a[z] == 0 ==> z < eob) && Abs(a[eob]) == 1
    ensures NoneNew(a, k, z) && NoneNew(a, k, k)
    ensures var rest := WayThen(t, a, k, z, eob, after);
      goal != [] &&
      if a[z] == 0 then goal[0] == Sym(t, 16 * n) && goal[1..] == rest
      else goal[0] == Sym(t, 16 * n + 1) && goal[1..] != [] && goal[1..][0] == Raw(Sign(a[z]), 1) && goal[1..][1..] == rest
    ensures area == Placed(area, at, order, a, al, k, k)
    ensures Scaled(a[z], al) != 0 <==> a[z] != 0
    ensures FitsShort(a, al) && Refinable(area, at, order, a, al, k, se)
  {
    z, n, goal := Stop(a, k, 0, eob).0, Stop(a, k, 0, eob).1, HeadThen(t, a, k, eob, after);
    if n == 16 { n := 15; }
    MeetNew(t, a, k, eob, se, after);
    StopSpan(a, k, eob);
    PlacedNone(area, at, order, a, al, k);
    ScaledZero(a[z], al);
  }

  // After it.
  lemma Closed(d: Reader, env: Env, t: nat, area: seq<int>, at: nat, order: seq<nat>, a: seq<int>, al: nat, k: nat, eob: nat, se: nat, after: seq<Token>)
    requires GoodEnv(env) && d.Valid() && IsOrder(order) && at + 64 <= |area| && k > eob
    requires AtRefine(d, env, t, area, at, order, a, al, k, eob, se, after)
    ensures d.InSync(env, after) && Refinable(area, at, order, a, al, k, se)
  {
    hide Reader.InSync;
    NewHeadPast(t, a, k, 0, [], eob);
    assert [] + after == after;
  }

  // The symbol has been read: the coefficients on the way to z are next.
  lemma OnTheWay(d: Reader, env: Env, t: nat, area: seq<int>, at: nat, order: seq<nat>, a: seq<int>, al: nat,
                 k: nat, z: nat, eob: nat, se: nat, after: seq<Token>)
    requires GoodEnv(env) && d.Valid() && IsOrder(order) && at + 64 <= |area| && |a| == 64 && k <= z <= eob <= se < 64
    requires NoneNew(a, k, z) && FitsShort(a, al) && Refinable(area, at, order, a, al, k, se)
    requires d.InSync(env, WayThen(t, a, k, z, eob, after))
    ensures Passing(d, env, area, at, order, a, al, k, z, se, HeadThen(t, a, z + 1, eob, after))
  {
    hide Reader.Valid, Reader.InSync, GoodEnv, Refinable, FitsShort;
  }

  ghost predicate NoneNew(a: seq<int>, k: nat, z: nat)
    requires z <= |a|
  {
    forall i :: k <= i < z ==> Abs(a[i]) != 1
  }

  // v moved al bits to the left.
  function Scaled(v: int, al: nat): int { v * Pow2(al) }

  lemma ScaledZero(v: int, al: nat)
    ensures Scaled(v, al) != 0 <==> v != 0
  {
    if v > 0 { MulLe(1, v, Pow2(al)); } else if v < 0 { MulLe(1, -v, Pow2(al)); MulNeg(-v, Pow2(al)); }
  }

  // z has been reached, and the new coefficient put there if there is one.
  lemma Arrived(d: Reader, env: Env, t: nat, area0: seq<int>, area: seq<int>, at: nat, order: seq<nat>, a: seq<int>, al: nat,
                k: nat, z: nat, c: int, eob: nat, se: nat, after: seq<Token>)
    requires GoodEnv(env) && d.Valid() && IsOrder(order) && at + 64 <= |area0| && |a| == 64 && k <= z <= eob <= se < 64 && Abs(a[eob]) == 1
    requires area == Placed(area0, at, order, a, al, k, z) && c == Scaled(a[z], al)
    requires Passing(d, env, area, at, order, a, al, z, z, se, HeadThen(t, a, z + 1, eob, after))
    ensures var next := if c == 0 then area else area[at + order[z] := ToShort(c)];
      && order[z] == NaturalAt(order, z) && next == Placed(area0, at, order, a, al, k, z + 1)
      && AtRefine(d, env, t, next, at, order, a, al, z + 1, eob, se, after)
  {
    ScaledZero(a[z], al);
    PlacedAgain(area0, at, order, a, al, k, z, z + 1);
    hide Reader.Valid, Reader.InSync, GoodEnv, Refinable, FitsShort, ToShort, Pow2, NewHead, Placed;
    assert Raws([]) + HeadThen(t, a, z + 1, eob, after) == HeadThen(t, a, z + 1, eob, after);
    PlacedNone(area, at, order, a, al, z);
    PlacedNext(area, at, order, a, al, z, z);
    RefinableStep(area, at, order, a, al, z, se);
    RefinableLater(area, at, order, a, al, z, se, ToShort(a[z] * Pow2(al)));
  }

  // What a symbol of a refinement scan says.
  datatype Said = Said(more: bool, r: nat, c: int)

  function SaidFrom(input: seq<Byte>, tbl: JHuffTbl, dt: DDerived, c: Cursor, al: nat): (f: Maybe<(Cursor, Said)>)
    ensures f.Just? && !f.value.1.more ==> f.value.1.r < 15
  {
    match Symbol(input, tbl, dt, c)
    case Nothing => Nothing
    case Just((next, s)) =>
      if SizeOf(s) != 0 then SaidNew(input, next, RunOf(s), al)
      else if RunOf(s) == 15 then Just((next, Said(true, 15, 0)))
      else Just((next, Said(false, RunOf(s), 0)))
  }

  function SaidNew(input: seq<Byte>, c: Cursor, r: nat, al: nat): (f: Maybe<(Cursor, Said)>)
    ensures f.Just? ==> f.value.1.more
  {
    match SignFrom(input, c, al)
    case Nothing => Nothing
    case Just((next, v)) => Just((next, Said(true, r, v)))
  }

  // A symbol of a refinement scan: a new coefficient c after r zeros, a ZRL (c == 0), or `more` is false and r is what ends the band.
  method ReadNew(d: Reader, t: nat, tbl: JHuffTbl, dt: DDerived, al: nat, ghost env: Env, ghost goal: seq<Token>, ghost n: nat, ghost v: int)
    returns (ok: bool, more: bool, r: nat, c: int)
    requires d.Valid() && GoodEnv(env) && t < |env| && Accepted(tbl, dt)
    modifies d`pos, d`unreadMarker, d`getBuffer, d`bitsLeft, d`held, d`insufficientData
    ensures d.Unmarked(ok) && (ok ==> d.Valid() && (!more ==> r < 15))
    ensures Tells(ok, d.avail == |d.input|, SaidFrom(d.input, tbl, dt, old(d.Cur()), al), (d.Cur(), Said(more, r, c)))
    ensures Shared(env[t], tbl, dt) && old(d.InSync(env, goal)) && n < 16 && goal != [] && goal[0] == Sym(t, 16 * n) ==>
      (d.avail == |d.input| ==> ok) && (ok ==> (more <==> n == 15) && r == n && c == 0 && d.InSync(env, goal[1..]))
    ensures Shared(env[t], tbl, dt) && old(d.InSync(env, goal)) && n < 16 && goal != [] && goal[0] == Sym(t, 16 * n + 1)
            && goal[1..] != [] && goal[1..][0] == Raw(Sign(v), 1) && Abs(v) == 1 ==>
      (d.avail == |d.input| ==> ok) && (ok ==> more && r == n && c == Scaled(v, al) && d.InSync(env, goal[1..][1..]))
  {
    hide Reader.Valid, Reader.InSync, GoodEnv, Shared, Accepted, Scaled, Symbol, SignFrom;
    more, r, c := true, 0, 0;
    var s;
    ok, s := d.ReadSymbol(t, tbl, dt, env, goal);
    if !ok {
      return;
    }
    r := s / 16;
    if s % 16 != 0 {
      ok, c := ReadSign(d, al, v, env, if goal != [] then goal[1..] else []);
    } else if r != 15 {
      more := false;
    }
  }

  // r and c have been read: z is where the next new coefficient goes, or the last zero of a ZRL.
  ghost predicate OnWay(d: Reader, env: Env, t: nat, area: seq<int>, at: nat, order: seq<nat>, a: seq<int>, al: nat,
                        k: nat, r: nat, c: int, z: nat, eob: nat, se: nat, after: seq<Token>)
    requires GoodEnv(env) && d.Valid() && IsOrder(order) && at + 64 <= |area|
    reads d`pos, d`avail, d`unreadMarker, d`bitsLeft, d`getBuffer, d`held, d`pad, d`landing, d`insufficientData
  {
    && |a| == 64 && k <= z <= eob <= se < 64 && Abs(a[eob]) == 1 && z == Passed(a, k, r, se)
    && Abs(a[z]) <= 1 && c == Scaled(a[z], al) && NoneNew(a, k, z)
    && Passing(d, env, area, at, order, a, al, k, z, se, HeadThen(t, a, z + 1, eob, after))
  }

  // The next symbol of the band.
  method ReadNext(d: Reader, t: nat, tbl: JHuffTbl, dt: DDerived, al: nat, ghost area: seq<int>, ghost at: nat, ghost order: seq<nat>,
                  ghost k: nat, ghost se: nat, ghost env: Env, ghost a: seq<int>, ghost eob: nat, ghost m: nat, ghost after: seq<Token>)
    returns (ok: bool, more: bool, r: nat, c: int, ghost z: nat)
    requires d.Valid() && GoodEnv(env) && t < |env| && Accepted(tbl, dt) && IsOrder(order) && at + 64 <= |area|
    modifies d`pos, d`unreadMarker, d`getBuffer, d`bitsLeft, d`held, d`insufficientData
    ensures d.Unmarked(ok) && (ok ==> d.Valid() && (!more ==> r < 15))
    ensures Tells(ok, d.avail == |d.input|, SaidFrom(d.input, tbl, dt, old(d.Cur()), al), (d.Cur(), Said(more, r, c)))
    ensures Shared(env[t], tbl, dt) && k <= eob && old(AtRefine(d, env, t, area, at, order, a, al, k, eob, se, after)) ==>
      (d.avail == |d.input| ==> ok) && (ok ==> more && OnWay(d, env, t, area, at, order, a, al, k, r, c, z, eob, se, after))
    ensures Shared(env[t], tbl, dt) && k > eob && old(AtRefine(d, env, t, area, at, order, a, al, k, eob, se, after))
            && m < 15 && after != [] && after[0] == Sym(t, 16 * m) ==>
      (d.avail == |d.input| ==> ok) && (ok ==> !more && r == m && d.InSync(env, after[1..]))
  {
    hide Reader.Valid, Reader.InSync, GoodEnv, Shared, Accepted, SaidFrom, Tells, Scaled, HeadThen;
    hide WayThen, Passed, Passing, IsOrder, AtRefine, NoneNew, Refinable, FitsShort;
    ghost var sync := Shared(env[t], tbl, dt) && AtRefine(d, env, t, area, at, order, a, al, k, eob, se, after);
    ghost var way := sync && k <= eob;
    ghost var n, goal := m, after;
    z := 0;
    if way {
      z, n, goal := Opened(d, env, t, area, at, order, a, al, k, eob, se, after);
    } else if sync {
      Closed(d, env, t, area, at, order, a, al, k, eob, se, after);
    }
    ok, more, r, c := ReadNew(d, t, tbl, dt, al, env, goal, n, if way then a[z] else 0);
    if ok && way { OnTheWay(d, env, t, area, at, order, a, al, k, z, eob, se, after); }
  }

  // A new coefficient, if there is one.
  function NewAt(c: int, z: nat, at: nat, order: seq<nat>): seq<Write>
    requires IsOrder(order)
  {
    if c != 0 then [Put(at + NaturalAt(order, z), ToShort(c))] else []
  }

  function AdvanceFrom(input: seq<Byte>, nz: seq<bool>, c: Cursor, at: nat, order: seq<nat>, k: nat, said: Said, se: nat)
    : (f: Outcome<(Cursor, nat)>)
    requires IsOrder(order) && |nz| == 64 && se < 64
    ensures f.Done? ==> f.value.1 > k
  {
    match PassFrom(input, nz, c, at, order, k, said.r, se, [])
    case Stuck(ws) => Stuck(ws)
    case Done((next, z), ws) => Done((next, z + 1), ws + NewAt(said.c, z, at, order))
  }

  // Coefficient `next` has been reached; only a coefficient behind the band may have been written over.
  ghost predicate Went(m: Mender, area0: seq<int>, start: seq<int>, area: seq<int>, at: nat, order: seq<nat>, next: nat, se: nat, ws: seq<Write>) {
    Untouched(area0, area, at, order, next, se) && Wrote(m, start, area, ws) && (next <= se + 1 ==> Fitting(area0, ws))
  }

  lemma WentNowhere(m: Mender, area0: seq<int>, at: nat, order: seq<nat>, k: nat, se: nat)
    requires IsOrder(order) && at + 64 <= |area0|
    ensures Untouched(area0, area0, at, order, k, se) && Went(m, area0, area0, area0, at, order, k, se, []) && Puts([], at) == []
  {
    WroteNothing(m, area0);
  }

  lemma WentOn(m: Mender, area0: seq<int>, start: seq<int>, mid: seq<int>, area: seq<int>, at: nat, order: seq<nat>, k: nat, next: nat, se: nat,
               ws: seq<Write>, w: seq<Write>)
    requires Went(m, area0, start, mid, at, order, k, se, ws) && k <= se + 1 && Went(m, area0, mid, area, at, order, next, se, w)
    ensures Went(m, area0, start, area, at, order, next, se, ws + w)
  {
    WroteMore(m, start, mid, area, ws, w);
    FittingConcat(area0, ws, w);
  }

  lemma WentThere(m: Mender, area0: seq<int>, start: seq<int>, area: seq<int>, at: nat, order: seq<nat>, k: nat, se: nat, ws: seq<Write>)
    requires Gone(m, area0, start, area, at, order, k, se, ws)
    ensures Went(m, area0, start, area, at, order, k, se, ws)
  {
  }

  // A new coefficient is put where the pass has stopped.
  lemma WentAndPut(m: Mender, area0: seq<int>, start: seq<int>, mid: seq<int>, area: seq<int>, at: nat, order: seq<nat>, z: nat, c: int, se: nat,
                   ws: seq<Write>)
    requires Gone(m, area0, start, mid, at, order, z, se, ws) && z <= se + 1 <= 64 && (z <= se ==> area0[at + NaturalAt(order, z)] == 0)
    requires area == if c == 0 then mid else mid[at + NaturalAt(order, z) := ToShort(c)]
    ensures Went(m, area0, start, area, at, order, z + 1, se, ws + NewAt(c, z, at, order))
    ensures Puts(ws + NewAt(c, z, at, order), at) == if c == 0 then [] else [NaturalAt(order, z)]
  {
    hide ToShort, Puts, DoAll;
    var w := NewAt(c, z, at, order);
    if c == 0 {
      assert ws + w == ws;
    } else {
      WroteOne(m, mid, w[0]);
      WroteMore(m, start, mid, area, ws, w);
      PutsConcat(ws, w, at);
      PutsOne(w[0], at);
      FittingConcat(area0, ws, w);
      if z <= se { UntouchedOn(m, area0, mid, area, at, order, z, se, w); }
    }
  }

  lemma GoneApart(m: Mender, area0: seq<int>, start: seq<int>, area: seq<int>, at: nat, order: seq<nat>, k: nat, se: nat, ws: seq<Write>)
    requires Gone(m, area0, start, area, at, order, k, se, ws)
    ensures Puts(ws, at) == []
  {
  }

  lemma ZeroThere(area0: seq<int>, at: nat, order: seq<nat>, z: nat)
    requires IsOrder(order) && at + 64 <= |area0| && z < 64 && !NonZeros(area0, at, order)[z]
    ensures area0[at + NaturalAt(order, z)] == 0
  {
  }

  // Past the coefficients that are in the way, and on to the next.
  method Advance(d: Reader, area: array<int>, at: nat, order: seq<nat>, k: nat, r: nat, c: int, se: nat, al: nat,
                 ghost area0: seq<int>, ghost t: nat, ghost env: Env, ghost a: seq<int>, ghost z: nat, ghost eob: nat, ghost after: seq<Token>)
    returns (ok: bool, next: nat, ghost ws: seq<Write>)
    requires d.Valid() && GoodEnv(env) && IsOrder(order) && k <= se < 64 && at + 64 <= area.Length == |area0|
    requires Untouched(area0, area[..], at, order, k, se)
    modifies d`pos, d`unreadMarker, d`getBuffer, d`bitsLeft, d`held, d`insufficientData, area
    ensures d.Unmarked(ok) && k <= next <= se + 2 && (ok ==> d.Valid() && next > k)
    ensures Follows(ok, d.avail == |d.input|, AdvanceFrom(d.input, NonZeros(area0, at, order), old(d.Cur()), at, order, k, Said(true, r, c), se),
                    (d.Cur(), next), ws)
    ensures Went(Corrects(al), area0, old(area[..]), area[..], at, order, next, se, ws) && (!ok ==> next <= se + 1)
    ensures Puts(ws, at) == if ok && c != 0 then [NaturalAt(order, next - 1)] else []
    ensures old(OnWay(d, env, t, area[..], at, order, a, al, k, r, c, z, eob, se, after)) ==>
      (d.avail == |d.input| ==> ok) && next <= z + 1 && area[..] == Placed(old(area[..]), at, order, a, al, k, next)
      && if ok then next == z + 1 && AtRefine(d, env, t, area[..], at, order, a, al, next, eob, se, after) else next <= z
  {
    hide Reader.Valid, Reader.InSync, GoodEnv, ToShort, Scaled, HeadThen, Placed, Passed, Passing, IsOrder, AtRefine, NoneNew;
    hide PassFrom, Gone, Went, NonZeros, Untouched, NewAt, Puts;
    ghost var now, m := area[..], Corrects(al);
    ghost var sync := OnWay(d, env, t, now, at, order, a, al, k, r, c, z, eob, se, after);
    ghost var rest := if sync then HeadThen(t, a, z + 1, eob, after) else [];
    ok, next, ws := PassOver(d, area, at, order, k, r, se, al, area0, env, a, z, rest);
    GoneApart(m, area0, now, area[..], at, order, next, se, ws);
    if !ok {
      WentThere(m, area0, now, area[..], at, order, next, se, ws);
      return;
    }
    if sync { Arrived(d, env, t, now, area[..], at, order, a, al, k, z, c, eob, se, after); }
    ghost var mid := area[..];
    Place(area, at + NaturalAt(order, next), c);
    if next <= se { ZeroThere(area0, at, order, next); }
    WentAndPut(m, area0, now, mid, area[..], at, order, next, c, se, ws);
    ws := ws + NewAt(c, next, at, order);
    next := next + 1;
  }

  // Place a new coefficient.
  method Place(area: array<int>, index: nat, c: int)
    requires index < area.Length
    modifies area
    ensures area[..] == if c == 0 then old(area[..]) else old(area[..])[index := ToShort(c)]
  {
    if c != 0 {
      area[index] := ToShort(c);
    }
  }

  // Which of the coefficients passed are new.
  lemma NewsOnWay(d: Reader, env: Env, t: nat, area: seq<int>, at: nat, order: seq<nat>, a: seq<int>, al: nat,
                  ss: nat, k: nat, r: nat, c: int, z: nat, eob: nat, se: nat, after: seq<Token>)
    requires GoodEnv(env) && d.Valid() && IsOrder(order) && at + 64 <= |area| && ss <= k
    requires OnWay(d, env, t, area, at, order, a, al, k, r, c, z, eob, se, after)
    ensures |a| == 64 && k <= z <= eob <= se < 64
    ensures News(order, a, ss, z + 1) == News(order, a, ss, k) + if c != 0 then [NaturalAt(order, z)] else []
    ensures forall next :: k <= next <= z ==> News(order, a, ss, next) == News(order, a, ss, k)
    ensures area == Placed(area, at, order, a, al, k, k)
  {
    ScaledZero(a[z], al);
    hide Passing, Passed, HeadThen, Scaled, News, Placed;
    NextNews(order, a, ss, k, z + 1);
    forall next | k <= next <= z
      ensures News(order, a, ss, next) == News(order, a, ss, k)
    {
      NoNews(order, a, ss, k, next);
    }
    PlacedNone(area, at, order, a, al, k);
  }

  // A coefficient that will have to be zero again if the block is abandoned.
  method Remember(newnz: array<nat>, num: nat, pos: nat, ghost news: seq<nat>)
    requires num < newnz.Length && pos < 64 && newnz[..num] == news && forall i :: 0 <= i < num ==> newnz[i] < 64
    modifies newnz
    ensures newnz[..num + 1] == news + [pos] && forall i :: 0 <= i < num + 1 ==> newnz[i] < 64
  {
    newnz[num] := pos;
    assert newnz[..num + 1] == newnz[..num] + [pos];
  }

  // What the loop has come to at coefficient k.
  ghost predicate Headed(d: Reader, env: Env, t: nat, area0: seq<int>, area: seq<int>, news: seq<nat>, at: nat, order: seq<nat>, a: seq<int>, al: nat,
                         ss: nat, k: nat, eob: nat, se: nat, after: seq<Token>)
    requires GoodEnv(env) && d.Valid() && IsOrder(order) && at + 64 <= |area0| == |area|
    reads d`pos, d`avail, d`unreadMarker, d`bitsLeft, d`getBuffer, d`held, d`pad, d`landing, d`insufficientData
  {
    && AtRefine(d, env, t, area, at, order, a, al, k, eob, se, after) && k <= se + 1 && Reaches(area0, area, news, at, order, a, al, ss, k)
    && (k <= eob + 1 || k == ss)
  }

  ghost function Reaches(area0: seq<int>, area: seq<int>, news: seq<nat>, at: nat, order: seq<nat>, a: seq<int>, al: nat, ss: nat, k: nat): (yes: bool)
    ensures yes ==> |a| == 64
    requires IsOrder(order) && at + 64 <= |area0|
  {
    |a| == 64 && ss <= k <= 64 && area == Placed(area0, at, order, a, al, ss, k) && news == News(order, a, ss, k)
  }

  // A new coefficient or a ZRL: on to the next symbol.
  method RefineRound(d: Reader, area: array<int>, at: nat, order: seq<nat>, k: nat, r: nat, c: int, se: nat, al: nat, newnz: array<nat>, num: nat,
                     ghost area0: seq<int>, ghost t: nat, ghost env: Env, ghost a: seq<int>, ghost ss: nat, ghost z: nat, ghost eob: nat,
                     ghost after: seq<Token>)
    returns (ok: bool, next: nat, count: nat, ghost ws: seq<Write>)
    requires d.Valid() && GoodEnv(env) && IsOrder(order) && ss <= k <= se < 64 && at + 64 <= area.Length == |area0|
    requires Untouched(area0, area[..], at, order, k, se)
    requires num + ss <= k && newnz.Length == 64 && 1 <= ss && forall i :: 0 <= i < num ==> newnz[i] < 64
    modifies d`pos, d`unreadMarker, d`getBuffer, d`bitsLeft, d`held, d`insufficientData, area, newnz
    ensures d.Unmarked(ok) && k <= next <= se + 2 && (ok ==> d.Valid() && next > k) && count + ss <= next
    ensures Follows(ok, d.avail == |d.input|, AdvanceFrom(d.input, NonZeros(area0, at, order), old(d.Cur()), at, order, k, Said(true, r, c), se),
                    (d.Cur(), next), ws)
    ensures Went(Corrects(al), area0, old(area[..]), area[..], at, order, next, se, ws) && (!ok ==> next <= se + 1)
    ensures newnz[..count] == old(newnz[..num]) + Puts(ws, at)
    ensures forall i :: 0 <= i < count ==> newnz[i] < 64
    ensures old(OnWay(d, env, t, area[..], at, order, a, al, k, r, c, z, eob, se, after))
            && old(Reaches(area0, area[..], newnz[..num], at, order, a, al, ss, k)) ==>
      (d.avail == |d.input| ==> ok) && next <= se + 1 && Reaches(area0, area[..], newnz[..count], at, order, a, al, ss, next)
      && (ok ==> Headed(d, env, t, area0, area[..], newnz[..count], at, order, a, al, ss, next, eob, se, after))
  {
    hide Reader.Valid, Reader.InSync, GoodEnv, IsOrder, AtRefine, OnWay, Placed, News, AdvanceFrom, Went, Puts, NonZeros, Untouched, Follows;
    ghost var now := area[..];
    ghost var sync := OnWay(d, env, t, now, at, order, a, al, k, r, c, z, eob, se, after)
      && Reaches(area0, now, newnz[..num], at, order, a, al, ss, k);
    if sync { NewsOnWay(d, env, t, now, at, order, a, al, ss, k, r, c, z, eob, se, after); }
    count := num;
    ok, next, ws := Advance(d, area, at, order, k, r, c, se, al, area0, t, env, a, z, eob, after);
    if sync { PlacedAgain(area0, at, order, a, al, ss, k, next); }
    if ok && c != 0 {
      Remember(newnz, num, NaturalAt(order, next - 1), newnz[..num]);
      count := num + 1;
    }
  }

  lemma HeadedStart(d: Reader, env: Env, t: nat, area: seq<int>, at: nat, order: seq<nat>, a: seq<int>, al: nat, ss: nat, eob: nat, se: nat, after: seq<Token>)
    requires GoodEnv(env) && d.Valid() && IsOrder(order) && at + 64 <= |area| && ss <= se < 64
    requires AtRefine(d, env, t, area, at, order, a, al, ss, eob, se, after)
    ensures Headed(d, env, t, area, area, [], at, order, a, al, ss, ss, eob, se, after)
  {
    hide AtRefine, Placed;
    PlacedNone(area, at, order, a, al, ss);
  }

  // At the end of band, or at the end of a complete one.
  lemma HeadedDone(d: Reader, env: Env, t: nat, area0: seq<int>, area: seq<int>, news: seq<nat>, at: nat, order: seq<nat>, a: seq<int>, al: nat,
                   ss: nat, k: nat, eob: nat, se: nat, after: seq<Token>)
    requires GoodEnv(env) && d.Valid() && IsOrder(order) && at + 64 <= |area0| == |area| && k > eob && (eob == 0 || ss <= eob)
    requires Headed(d, env, t, area0, area, news, at, order, a, al, ss, k, eob, se, after) && ss >= 1
    ensures d.InSync(env, after) && Refinable(area, at, order, a, al, k, se) && k == TailStart(ss, eob)
    ensures AtRefine(d, env, t, area, at, order, a, al, k, eob, se, after)
  {
    hide AtRefine, Placed, Refinable, Reader.InSync;
    Closed(d, env, t, area, at, order, a, al, k, eob, se, after);
  }

  lemma HeadedParts(d: Reader, env: Env, t: nat, area0: seq<int>, area: seq<int>, news: seq<nat>, at: nat, order: seq<nat>, a: seq<int>, al: nat,
                    ss: nat, k: nat, eob: nat, se: nat, after: seq<Token>)
    requires GoodEnv(env) && d.Valid() && IsOrder(order) && at + 64 <= |area0| == |area| && (eob == 0 || ss <= eob) && ss >= 1
    requires Headed(d, env, t, area0, area, news, at, order, a, al, ss, k, eob, se, after)
    ensures AtRefine(d, env, t, area, at, order, a, al, k, eob, se, after) && Reaches(area0, area, news, at, order, a, al, ss, k)
    ensures k <= se + 1 && eob <= se
    ensures k > eob ==> d.InSync(env, after) && Refinable(area, at, order, a, al, k, se) && k == TailStart(ss, eob)
  {
    hide AtRefine, Placed, Refinable, Reader.InSync;
    if k > eob { HeadedDone(d, env, t, area0, area, news, at, order, a, al, ss, k, eob, se, after); }
  }

  // What a symbol leads to: the next coefficient, or the end of band and the length of its EOB run.
  datatype Turn = Turn(cur: Cursor, more: bool, next: nat, run: nat)

  function TurnFrom(input: seq<Byte>, tbl: JHuffTbl, dt: DDerived, nz: seq<bool>, c: Cursor, at: nat, order: seq<nat>, k: nat, se: nat, al: nat)
    : (f: Outcome<Turn>)
    requires IsOrder(order) && |nz| == 64 && se < 64
    ensures f.Done? && f.value.more ==> f.value.next > k
  {
    match SaidFrom(input, tbl, dt, c, al)
    case Nothing => Stuck([])
    case Just((c1, said)) =>
      if said.more then TurnOn(AdvanceFrom(input, nz, c1, at, order, k, said, se)) else TurnEnds(RunFrom(input, c1, said.r), k)
  }

  function TurnOn(f: Outcome<(Cursor, nat)>): (r: Outcome<Turn>)
    ensures f.Done? ==> r == Done(Turn(f.value.0, true, f.value.1, 0), f.ws)
  {
    match f
    case Stuck(ws) => Stuck(ws)
    case Done((c, next), ws) => Done(Turn(c, true, next, 0), ws)
  }

  function TurnEnds(f: Maybe<(Cursor, nat)>, k: nat): (r: Outcome<Turn>)
    ensures r.Done? ==> !r.value.more
  {
    match f
    case Nothing => Stuck([])
    case Just((c, run)) => Done(Turn(c, false, k, run), [])
  }

  // The band from coefficient k on, ws having been written: where the end of band comes, and the length of the EOB run, or 0.
  function HeadFrom(input: seq<Byte>, tbl: JHuffTbl, dt: DDerived, nz: seq<bool>, c: Cursor, at: nat, order: seq<nat>, k: nat, se: nat, al: nat,
                    ws: seq<Write>): (f: Outcome<(Cursor, nat, nat)>)
    requires IsOrder(order) && |nz| == 64 && se < 64
    ensures ws <= f.ws
    decreases se + 1 - k
  {
    if k > se then Done((c, k, 0), ws)
    else
      var f := TurnFrom(input, tbl, dt, nz, c, at, order, k, se, al);
      if f.Stuck? then Stuck(ws + f.ws)
      else if f.value.more then HeadFrom(input, tbl, dt, nz, f.value.cur, at, order, f.value.next, se, al, ws + f.ws)
      else Done((f.value.cur, f.value.next, f.value.run), ws + f.ws)
  }

  lemma HeadNext(input: seq<Byte>, tbl: JHuffTbl, dt: DDerived, nz: seq<bool>, c: Cursor, at: nat, order: seq<nat>, k: nat, se: nat, al: nat,
                 ws: seq<Write>)
    requires IsOrder(order) && |nz| == 64 && se < 64
    ensures HeadFrom(input, tbl, dt, nz, c, at, order, k, se, al, ws) ==
      if k > se then Done((c, k, 0), ws)
      else
        var f := TurnFrom(input, tbl, dt, nz, c, at, order, k, se, al);
        if f.Stuck? then Stuck(ws + f.ws)
        else if f.value.more then HeadFrom(input, tbl, dt, nz, f.value.cur, at, order, f.value.next, se, al, ws + f.ws)
        else Done((f.value.cur, f.value.next, f.value.run), ws + f.ws)
  {
  }

  lemma WentHere(m: Mender, area0: seq<int>, area: seq<int>, at: nat, order: seq<nat>, k: nat, se: nat, ws: seq<Write>)
    requires Went(m, area0, area0, area, at, order, k, se, ws)
    ensures Untouched(area0, area, at, order, k, se)
  {
  }

  // The decoder is in a band of this shape: e is the length of the EOB run that begins in it, or 0.
  ghost predicate InHead(d: Reader, env: Env, t: nat, tbl: JHuffTbl, dt: DDerived, area0: seq<int>, area: seq<int>, news: seq<nat>, at: nat, order: seq<nat>,
                         a: seq<int>, al: nat, ss: nat, k: nat, eob: nat, se: nat, e: nat, rest: seq<Token>)
    requires GoodEnv(env) && d.Valid() && IsOrder(order) && at + 64 <= |area0| == |area| && t < |env| && e <= MAX_EOBRUN
    reads d`pos, d`avail, d`unreadMarker, d`bitsLeft, d`getBuffer, d`held, d`pad, d`landing, d`insufficientData
  {
    && Shared(env[t], tbl, dt) && (e > 0 <==> TailStart(ss, eob) <= se) && (eob == 0 || ss <= eob)
    && Headed(d, env, t, area0, area, news, at, order, a, al, ss, k, eob, se, (if e > 0 then EobSymbol(t, e) else []) + rest)
  }

  // At the end of the band's new coefficients.
  ghost predicate HeadDone(d: Reader, env: Env, area: seq<int>, at: nat, order: seq<nat>, a: seq<int>, al: nat,
                           ss: nat, k: nat, eob: nat, se: nat, rest: seq<Token>)
    requires GoodEnv(env) && d.Valid() && IsOrder(order) && at + 64 <= |area|
    reads d`pos, d`avail, d`unreadMarker, d`bitsLeft, d`getBuffer, d`held, d`pad, d`landing, d`insufficientData
  {
    |a| == 64 && k == TailStart(ss, eob) && d.InSync(env, rest) && Refinable(area, at, order, a, al, k, se)
  }

  lemma InHeadParts(d: Reader, env: Env, t: nat, tbl: JHuffTbl, dt: DDerived, area0: seq<int>, area: seq<int>, news: seq<nat>, at: nat, order: seq<nat>,
                    a: seq<int>, al: nat, ss: nat, k: nat, eob: nat, se: nat, e: nat, rest: seq<Token>)
    requires GoodEnv(env) && d.Valid() && IsOrder(order) && at + 64 <= |area0| == |area| && ss >= 1 && t < |env| && e <= MAX_EOBRUN
    requires InHead(d, env, t, tbl, dt, area0, area, news, at, order, a, al, ss, k, eob, se, e, rest)
    ensures var after := (if e > 0 then EobSymbol(t, e) else []) + rest; var left := if e > 0 then NumBits(e) - 1 else 0;
      && AtRefine(d, env, t, area, at, order, a, al, k, eob, se, after) && Reaches(area0, area, news, at, order, a, al, ss, k)
      && k <= se + 1 && eob <= se && Shared(env[t], tbl, dt) && (k > eob && k <= se ==> e > 0)
      && (e > 0 ==> 0 <= left < 15 && after != [] && after[0] == Sym(t, 16 * left)
                    && after[1..] == (if left > 0 then [Raw(e % Pow2(left), left)] else []) + rest)
    ensures k > eob ==> Refinable(area, at, order, a, al, k, se) && k == TailStart(ss, eob)
    ensures k > se ==> HeadDone(d, env, area, at, order, a, al, ss, k, eob, se, rest) && e == 0
  {
    hide AtRefine, Placed, Refinable, Reader.InSync, Shared, EobSymbol, NumBits, Pow2, Reaches;
    var after := (if e > 0 then EobSymbol(t, e) else []) + rest;
    if e > 0 { EndAhead(t, e, rest); } else { assert after == rest; }
    HeadedParts(d, env, t, area0, area, news, at, order, a, al, ss, k, eob, se, after);
  }

  // A symbol, and what it leads to.
  method RefineTurn(d: Reader, t: nat, tbl: JHuffTbl, dt: DDerived, area: array<int>, at: nat, order: seq<nat>, k: nat, ss: nat, se: nat, al: nat,
                    newnz: array<nat>, num: nat, ghost area0: seq<int>, ghost env: Env, ghost a: seq<int>, ghost eob: nat, ghost e: nat,
                    ghost rest: seq<Token>)
    returns (ok: bool, more: bool, next: nat, count: nat, run: nat, ghost ws: seq<Write>)
    requires d.Valid() && GoodEnv(env) && t < |env| && Accepted(tbl, dt) && e <= MAX_EOBRUN
    requires IsOrder(order) && 1 <= ss <= k <= se < 64 && at + 64 <= area.Length == |area0| && newnz.Length == 64
    requires Untouched(area0, area[..], at, order, k, se) && num + ss <= k && forall i :: 0 <= i < num ==> newnz[i] < 64
    modifies d`pos, d`unreadMarker, d`getBuffer, d`bitsLeft, d`held, d`insufficientData, area, newnz
    ensures d.Unmarked(ok) && (ok ==> d.Valid() && (more ==> next > k && run == 0)) && k <= next <= se + 2 && count + ss <= next
    ensures forall i :: 0 <= i < count ==> newnz[i] < 64
    ensures Follows(ok, d.avail == |d.input|, TurnFrom(d.input, tbl, dt, NonZeros(area0, at, order), old(d.Cur()), at, order, k, se, al),
                    Turn(d.Cur(), more, next, run), ws)
    ensures Went(Corrects(al), area0, old(area[..]), area[..], at, order, next, se, ws) && (!ok || !more ==> next <= se + 1)
    ensures newnz[..count] == old(newnz[..num]) + Puts(ws, at)
    ensures old(InHead(d, env, t, tbl, dt, area0, area[..], newnz[..num], at, order, a, al, ss, k, eob, se, e, rest)) ==>
      (d.avail == |d.input| ==> ok) && next <= se + 1 && Reaches(area0, area[..], newnz[..count], at, order, a, al, ss, next)
      && (ok ==> if more then InHead(d, env, t, tbl, dt, area0, area[..], newnz[..count], at, order, a, al, ss, next, eob, se, e, rest)
                 else run == e && HeadDone(d, env, area[..], at, order, a, al, ss, next, eob, se, rest))
  {
    hide Reader.Valid, Reader.InSync, GoodEnv, Shared, Accepted, IsOrder, AtRefine, OnWay, EobSymbol, NumBits, Pow2, Refinable, Headed, Reaches;
    hide SaidFrom, AdvanceFrom, RunFrom, Went, Puts, NonZeros, Untouched;
    ghost var after := (if e > 0 then EobSymbol(t, e) else []) + rest;
    ghost var left := if e > 0 then NumBits(e) - 1 else 0;
    ghost var sync := InHead(d, env, t, tbl, dt, area0, area[..], newnz[..num], at, order, a, al, ss, k, eob, se, e, rest);
    if sync { InHeadParts(d, env, t, tbl, dt, area0, area[..], newnz[..num], at, order, a, al, ss, k, eob, se, e, rest); }
    next, count, run, ws := k, num, 0, [];
    NothingYet(Corrects(al), area0, area[..], at, order, k, se);
    var r, c;
    ghost var z;
    ok, more, r, c, z := ReadNext(d, t, tbl, dt, al, area[..], at, order, k, se, env, a, eob, left, after);
    if !ok {
      return;
    }
    if more {
      ok, next, count, ws := RefineRound(d, area, at, order, k, r, c, se, al, newnz, num, area0, t, env, a, ss, z, eob, after);
    } else {
      ok, run := ReadRunLength(d, r, e, env, if after != [] then after[1..] else [], rest);
    }
  }

  lemma NothingYet(m: Mender, area0: seq<int>, area: seq<int>, at: nat, order: seq<nat>, k: nat, se: nat)
    requires Untouched(area0, area, at, order, k, se)
    ensures Went(m, area0, area, area, at, order, k, se, []) && Puts([], at) == []
  {
    WroteNothing(m, area);
  }

  // The coefficient loop of decode_mcu_AC_refine, up to the end of band; run is 0 when the band was complete.
  method RefineHead(d: Reader, t: nat, tbl: JHuffTbl, dt: DDerived, area: array<int>, at: nat, order: seq<nat>, ss: nat, se: nat, al: nat,
                    newnz: array<nat>, ghost env: Env, ghost a: seq<int>, ghost eob: nat, ghost e: nat, ghost rest: seq<Token>)
    returns (ok: bool, k: nat, num: nat, run: nat, ghost ws: seq<Write>)
    requires d.Valid() && GoodEnv(env) && t < |env| && Accepted(tbl, dt) && e <= MAX_EOBRUN
    requires IsOrder(order) && 1 <= ss <= se < 64 && at + 64 <= area.Length && newnz.Length == 64
    modifies d`pos, d`unreadMarker, d`getBuffer, d`bitsLeft, d`held, d`insufficientData, area, newnz
    ensures d.Unmarked(ok) && (ok ==> d.Valid()) && ss <= k <= se + 2 && num + ss <= k && forall i :: 0 <= i < num ==> newnz[i] < 64
    ensures Follows(ok, d.avail == |d.input|,
                    HeadFrom(d.input, tbl, dt, NonZeros(old(area[..]), at, order), old(d.Cur()), at, order, ss, se, al, []), (d.Cur(), k, run), ws)
    ensures Went(Corrects(al), old(area[..]), old(area[..]), area[..], at, order, k, se, ws) && (!ok || run > 0 ==> k <= se + 1)
    ensures newnz[..num] == Puts(ws, at)
    ensures Shared(env[t], tbl, dt) && (e > 0 <==> TailStart(ss, eob) <= se) && (eob == 0 || ss <= eob)
            && old(AtRefine(d, env, t, area[..], at, order, a, al, ss, eob, se, (if e > 0 then EobSymbol(t, e) else []) + rest)) ==>
      (d.avail == |d.input| ==> ok) && k <= se + 1 && Reaches(old(area[..]), area[..], newnz[..num], at, order, a, al, ss, k)
      && (ok ==> run == e && HeadDone(d, env, area[..], at, order, a, al, ss, k, eob, se, rest))
  {
    hide Reader.Valid, Reader.InSync, GoodEnv, Shared, Accepted, IsOrder, AtRefine, EobSymbol, Refinable, Headed, Reaches, HeadDone;
    hide HeadFrom, TurnFrom, Went, Puts, NonZeros, Untouched;
    ghost var area0, m, nz := area[..], Corrects(al), NonZeros(area[..], at, order);
    ghost var sync := Shared(env[t], tbl, dt) && (e > 0 <==> TailStart(ss, eob) <= se) && (eob == 0 || ss <= eob)
      && AtRefine(d, env, t, area0, at, order, a, al, ss, eob, se, (if e > 0 then EobSymbol(t, e) else []) + rest);
    k, num, run, ok, ws := ss, 0, 0, true, [];
    ghost var whole := HeadFrom(d.input, tbl, dt, nz, d.Cur(), at, order, ss, se, al, []);
    WentNowhere(m, area0, at, order, ss, se);
    assert newnz[..0] == [];
    if sync { HeadedStart(d, env, t, area0, at, order, a, al, ss, eob, se, (if e > 0 then EobSymbol(t, e) else []) + rest); }
    hide InHead;
    while k <= se
      invariant d.Valid() && d.Unmarked(true) && ok && run == 0 && ss <= k <= se + 2 && num + ss <= k
      invariant forall i :: 0 <= i < num ==> newnz[i] < 64
      invariant HeadFrom(d.input, tbl, dt, nz, d.Cur(), at, order, k, se, al, ws) == whole
      invariant Went(m, area0, area0, area[..], at, order, k, se, ws) && newnz[..num] == Puts(ws, at)
      invariant sync ==> InHead(d, env, t, tbl, dt, area0, area[..], newnz[..num], at, order, a, al, ss, k, eob, se, e, rest)
    {
      var more;
      ghost var k0, w, mid := k, [], area[..];
      HeadNext(d.input, tbl, dt, nz, d.Cur(), at, order, k, se, al, ws);
      WentHere(m, area0, mid, at, order, k, se, ws);
      ok, more, k, num, run, w := RefineTurn(d, t, tbl, dt, area, at, order, k, ss, se, al, newnz, num, area0, env, a, eob, e, rest);
      WentOn(m, area0, area0, mid, area[..], at, order, k0, k, se, ws, w);
      PutsConcat(ws, w, at);
      ws := ws + w;
      if !ok || !more {
        return;
      }
    }
    HeadNext(d.input, tbl, dt, nz, d.Cur(), at, order, k, se, al, ws);
    if sync { InHeadParts(d, env, t, tbl, dt, area0, area[..], newnz[..num], at, order, a, al, ss, k, eob, se, e, rest); }
  }

  // ----- suspension in the middle of a block -----

  lemma {:induction false} NewsAt(order: seq<nat>, a: seq<int>, ss: nat, k: nat, i: nat)
    requires IsOrder(order) && k <= |a| == 64 && i < 64
    ensures order[i] in News(order, a, ss, k) <==> ss <= i < k && Abs(a[i]) == 1
  {
    if ss < k {
      NewsAt(order, a, ss, k - 1, i);
      assert i < k - 1 ==> order[i] != order[k - 1];
      assert i > k - 1 ==> order[k - 1] != order[i];
    }
  }

  lemma {:induction false} NewsOnly(order: seq<nat>, a: seq<int>, ss: nat, k: nat, p: nat) returns (i: nat)
    requires IsOrder(order) && k <= |a| == 64 && p in News(order, a, ss, k)
    ensures ss <= i < k && Abs(a[i]) == 1 && order[i] == p
  {
    if Abs(a[k - 1]) == 1 && order[k - 1] == p {
      i := k - 1;
    } else {
      i := NewsOnly(order, a, ss, k - 1, p);
    }
  }

  // New coefficients are zero again.
  ghost function Undone(area: seq<int>, at: nat, news: seq<nat>): (r: seq<int>)
    ensures |r| == |area|
  {
    seq(|area|, j requires 0 <= j < |area| => if j >= at && j - at in news then 0 else area[j])
  }

  // Take back the coefficients this attempt made nonzero.
  method Undo(area: array<int>, at: nat, newnz: array<nat>, num: nat)
    requires at + 64 <= area.Length && num <= newnz.Length && forall i :: 0 <= i < num ==> newnz[i] < 64
    modifies area
    ensures area[..] == Undone(old(area[..]), at, newnz[..num])
  {
    var n := num;
    while n > 0
      invariant 0 <= n <= num && newnz[..] == old(newnz[..])
      invariant forall j :: 0 <= j < area.Length ==>
        area[j] == if j >= at && j - at in newnz[n..num] then 0 else old(area[j])
    {
      n := n - 1;
      assert newnz[n..num] == [newnz[n]] + newnz[n + 1..num];
      area[at + newnz[n]] := 0;
    }
    assert newnz[0..num] == newnz[..num];
  }

  lemma UndoneRefinable(area0: seq<int>, area: seq<int>, news: seq<nat>, at: nat, order: seq<nat>, a: seq<int>, al: nat, ss: nat, k: nat, se: nat)
    requires IsOrder(order) && at + 64 <= |area0| && se < 64 && k <= se + 1 && FitsShort(a, al)
    requires Reaches(area0, area, news, at, order, a, al, ss, k) && Refinable(area0, at, order, a, al, ss, se)
    ensures Refinable(Undone(area, at, news), at, order, a, al, ss, se)
  {
    hide RefinableAt, Pow2, Prior, News, FitsShort, Placed, ToShort;
    var u := Undone(area, at, news);
    forall i | ss <= i <= se
      ensures RefinableAt(u[at + order[i]], a[i], al)
    {
      NewsAt(order, a, ss, k, i);
      PlacedAt(area0, at, order, a, al, ss, k, i);
      UndoneAt(area0[at + order[i]], u[at + order[i]], a, al, i);
    }
  }

  lemma UndoneBetween(area0: seq<int>, area: seq<int>, news: seq<nat>, at: nat, order: seq<nat>, a: seq<int>, al: nat, ss: nat, k: nat, se: nat)
    requires IsOrder(order) && at + 64 <= |area0| && se < 64 && k <= se + 1
    requires Reaches(area0, area, news, at, order, a, al, ss, k) && Refinable(area0, at, order, a, al, ss, se)
    ensures Between(area0, Undone(area, at, news), Placed(area0, at, order, a, al, ss, se + 1))
  {
    PlacedBetween(area0, at, order, a, al, ss, k, se + 1);
    hide RefinableAt, News, Placed;
    var u := Undone(area, at, news);
    forall j | 0 <= j < |u| && j >= at && j - at in news
      ensures area0[j] == 0
    {
      var i := NewsOnly(order, a, ss, k, j - at);
      NewBefore(area0[j], a[i], al);
    }
  }

  lemma UndoneAt(c0: int, c: int, a: seq<int>, al: nat, i: nat)
    requires i < |a| && FitsShort(a, al) && RefinableAt(c0, a[i], al)
    requires c == c0 || (Abs(a[i]) == 1 && c == 0) || (Abs(a[i]) != 1 && a[i] != 0 && c == ToShort(a[i] * Pow2(al)))
    ensures RefinableAt(c, a[i], al)
  {
    hide Pow2;
    PriorStep(a[i], al);
    ShortAt(a, al, i);
  }

  lemma NewBefore(c: int, v: int, al: nat)
    requires RefinableAt(c, v, al) && Abs(v) == 1
    ensures c == 0
  {
    PriorStep(v, al);
  }

  // The first block to come is refined from here, or it belongs to a run and only has corrections.
  lemma RefineOpens(d: Reader, env: Env, t: nat, area: seq<int>, at: nat, order: seq<nat>, a: seq<int>, al: nat, ss: nat, se: nat, bs: seq<AcBlock>)
    returns (e: nat, rest: seq<Token>)
    requires GoodEnv(env) && d.Valid() && IsOrder(order) && at + 64 <= |area| && |a| == 64 && 1 <= ss <= se < 64
    requires FitsShort(a, al) && Refinable(area, at, order, a, al, ss, se)
    requires bs != [] && bs[0] == RefineBlock(t, a, ss, se) && AtBlocks(d, env, t, bs) && d.eobrun == 0
    ensures var eob := LastNew(a, ss, se + 1);
      && e <= MAX_EOBRUN && (e > 0 <==> TailStart(ss, eob) <= se) && (eob == 0 || ss <= eob) && e <= |bs|
      && AtRefine(d, env, t, area, at, order, a, al, ss, eob, se, (if e > 0 then EobSymbol(t, e) else []) + rest)
      && (e == 0 ==> rest == InRun(t, 0, bs[1..]))
      && (e > 0 ==> rest == Raws(Corr(a, TailStart(ss, eob), se + 1)) + InRun(t, e - 1, bs[1..]))
    ensures e > 0 ==> forall i :: 0 <= i < e - 1 ==> bs[1..][i].head == []
  {
    hide Reader.InSync, Refinable, FitsShort, InRun, Stream, EobSymbol, NewHead, Corr, Raws;
    var b, more := bs[0], bs[1..];
    StreamSplit(t, bs);
    NoRun(t, bs);
    NoRun(t, more);
    if b.ends {
      e := 1 + Joining(1, |b.tail|, more);
      rest := Raws(b.tail) + InRun(t, e - 1, more);
      Ungrouped(EobSymbol(t, e), Raws(b.tail), InRun(t, e - 1, more));
    } else {
      e, rest := 0, Stream(t, more);
      assert [] + rest == rest;
    }
  }

  lemma RefineGoesOn(d: Reader, env: Env, t: nat, area: seq<int>, at: nat, order: seq<nat>, a: seq<int>, al: nat, ss: nat, se: nat, bs: seq<AcBlock>)
    requires GoodEnv(env) && d.Valid() && IsOrder(order) && at + 64 <= |area| && |a| == 64 && 1 <= ss <= se < 64
    requires FitsShort(a, al) && Refinable(area, at, order, a, al, ss, se)
    requires bs != [] && bs[0] == RefineBlock(t, a, ss, se) && AtBlocks(d, env, t, bs) && d.eobrun > 0
    ensures Passing(d, env, area, at, order, a, al, ss, se + 1, se, InRun(t, d.eobrun - 1, bs[1..]))
    ensures d.eobrun - 1 <= |bs[1..]| && forall i :: 0 <= i < d.eobrun - 1 ==> bs[1..][i].head == []
  {
    hide Reader.InSync, Refinable, FitsShort, InRun, NewHead, Corr, Raws;
    RunGoesOn(t, d.eobrun, bs);
    RefineBlockOk(t, a, ss, se);
  }

  // The band is done up to its tail.
  lemma TailAhead(d: Reader, env: Env, t: nat, area: seq<int>, at: nat, order: seq<nat>, a: seq<int>, al: nat, ss: nat, se: nat, after: seq<Token>)
    requires GoodEnv(env) && d.Valid() && IsOrder(order) && at + 64 <= |area| && |a| == 64 && 1 <= ss <= se < 64 && FitsShort(a, al)
    requires var k := TailStart(ss, LastNew(a, ss, se + 1));
      k <= se && Refinable(area, at, order, a, al, k, se) && d.InSync(env, Raws(Corr(a, k, se + 1)) + after)
    ensures Passing(d, env, area, at, order, a, al, TailStart(ss, LastNew(a, ss, se + 1)), se + 1, se, after)
  {
  }

  // The decoder is at a block of the refinement scan, which it may have tried before.
  ghost predicate AtRefineBlock(d: Reader, env: Env, t: nat, area: seq<int>, at: nat, order: seq<nat>, a: seq<int>, al: nat,
                                ss: nat, se: nat, bs: seq<AcBlock>): (yes: bool)
    requires GoodEnv(env) && d.Valid() && IsOrder(order) && at + 64 <= |area| && 1 <= ss <= se < 64
    ensures yes ==> |a| == 64 && bs != []
    reads d`pos, d`avail, d`unreadMarker, d`bitsLeft, d`getBuffer, d`held, d`pad, d`landing, d`insufficientData, d`eobrun
  {
    && |a| == 64 && FitsShort(a, al) && Refinable(area, at, order, a, al, ss, se)
    && bs != [] && bs[0] == RefineBlock(t, a, ss, se) && AtBlocks(d, env, t, bs)
  }

  // The band is done up to k, in a run of `run` blocks if run is not 0.
  ghost predicate Fronted(d: Reader, env: Env, t: nat, area0: seq<int>, area: seq<int>, news: seq<nat>, at: nat, order: seq<nat>, a: seq<int>, al: nat,
                          ss: nat, k: nat, run: nat, se: nat, bs: seq<AcBlock>): (yes: bool)
    requires GoodEnv(env) && d.Valid() && IsOrder(order) && at + 64 <= |area0| == |area| && bs != [] && se < 64
    ensures yes ==> ss <= k <= se + 1 && run <= |bs|
    reads d`pos, d`avail, d`unreadMarker, d`bitsLeft, d`getBuffer, d`held, d`pad, d`landing, d`insufficientData
  {
    && Reaches(area0, area, news, at, order, a, al, ss, k) && k <= se + 1 && run <= |bs|
    && (forall i :: 0 <= i < run - 1 ==> bs[1..][i].head == [])
    && if run > 0 then Passing(d, env, area, at, order, a, al, k, se + 1, se, InRun(t, run - 1, bs[1..]))
       else k == se + 1 && d.InSync(env, InRun(t, 0, bs[1..]))
  }

  lemma FrontedAtOnce(d: Reader, env: Env, t: nat, area: seq<int>, news: seq<nat>, at: nat, order: seq<nat>, a: seq<int>, al: nat,
                      ss: nat, se: nat, bs: seq<AcBlock>)
    requires GoodEnv(env) && d.Valid() && IsOrder(order) && at + 64 <= |area| && 1 <= ss <= se < 64 && news == []
    requires AtRefineBlock(d, env, t, area, at, order, a, al, ss, se, bs) && d.eobrun > 0
    ensures Fronted(d, env, t, area, area, news, at, order, a, al, ss, ss, d.eobrun, se, bs)
  {
    hide Passing, Refinable, FitsShort, Reader.InSync, Placed;
    RefineGoesOn(d, env, t, area, at, order, a, al, ss, se, bs);
    PlacedNone(area, at, order, a, al, ss);
  }

  lemma FrontedAfterHead(d: Reader, env: Env, t: nat, area0: seq<int>, area: seq<int>, news: seq<nat>, at: nat, order: seq<nat>, a: seq<int>, al: nat,
                         ss: nat, se: nat, bs: seq<AcBlock>, e: nat, rest: seq<Token>)
    requires GoodEnv(env) && d.Valid() && IsOrder(order) && at + 64 <= |area0| == |area| && |a| == 64 && 1 <= ss <= se < 64 && bs != []
    requires var k := TailStart(ss, LastNew(a, ss, se + 1));
      && e <= |bs| && (e > 0 <==> k <= se) && Reaches(area0, area, news, at, order, a, al, ss, k) && d.InSync(env, rest) && Refinable(area, at, order, a, al, k, se)
      && (e == 0 ==> rest == InRun(t, 0, bs[1..])) && (e > 0 ==> rest == Raws(Corr(a, k, se + 1)) + InRun(t, e - 1, bs[1..]))
    requires FitsShort(a, al) && forall i :: 0 <= i < e - 1 ==> bs[1..][i].head == []
    ensures Fronted(d, env, t, area0, area, news, at, order, a, al, ss, TailStart(ss, LastNew(a, ss, se + 1)), e, se, bs)
  {
    hide Passing, Refinable, FitsShort, Reader.InSync, Placed, Reaches, InRun, Corr, Raws;
    if e > 0 { TailAhead(d, env, t, area, at, order, a, al, ss, se, InRun(t, e - 1, bs[1..])); }
  }

  lemma UndoneIsKept(area0: seq<int>, area: seq<int>, news: seq<nat>, at: nat, m: Mender, ws: seq<Write>)
    requires Wrote(m, area0, area, ws) && Fitting(area0, ws) && news == Puts(ws, at)
    ensures Abandoned(m, area0, Undone(area, at, news), ws)
  {
    hide DoAll, Puts;
    forall j | 0 <= j < |area|
      ensures Undone(area, at, news)[j] == Kept(area0, DoAll(m, area0, ws))[j]
    {
      TakenBack(m, area0, area, ws, at, j);
    }
  }

  // When the decoder has to wait, the new coefficients of the block are taken back.
  method UndoIt(area: array<int>, at: nat, newnz: array<nat>, num: nat, ghost area0: seq<int>, ghost order: seq<nat>, ghost a: seq<int>,
                ghost al: nat, ghost ss: nat, ghost k: nat, ghost se: nat, ghost ws: seq<Write>)
    requires at + 64 <= area.Length == |area0| && num <= newnz.Length && (forall i :: 0 <= i < num ==> newnz[i] < 64) && IsOrder(order) && se < 64
    requires Wrote(Corrects(al), area0, area[..], ws) && Fitting(area0, ws) && newnz[..num] == Puts(ws, at)
    modifies area
    ensures Abandoned(Corrects(al), area0, area[..], ws)
    ensures k <= se + 1 && |a| == 64 && FitsShort(a, al) && Reaches(area0, old(area[..]), newnz[..num], at, order, a, al, ss, k)
            && Refinable(area0, at, order, a, al, ss, se) ==>
      Refinable(area[..], at, order, a, al, ss, se) && Between(area0, area[..], Placed(area0, at, order, a, al, ss, se + 1))
  {
    hide FitsShort, Refinable, Placed, Reaches, Between, IsOrder, Wrote, Fitting, Puts, Kept, Undone, DoAll;
    ghost var before := area[..];
    UndoneIsKept(area0, before, newnz[..num], at, Corrects(al), ws);
    if k <= se + 1 && FitsShort(a, al) && Reaches(area0, area[..], newnz[..num], at, order, a, al, ss, k) && |a| == 64
       && Refinable(area0, at, order, a, al, ss, se) {
      UndoneRefinable(area0, area[..], newnz[..num], at, order, a, al, ss, k, se);
      UndoneBetween(area0, area[..], newnz[..num], at, order, a, al, ss, k, se);
    }
    Undo(area, at, newnz, num);
  }

  lemma HeadDoneIs(d: Reader, env: Env, area: seq<int>, at: nat, order: seq<nat>, a: seq<int>, al: nat,
                   ss: nat, k: nat, eob: nat, se: nat, rest: seq<Token>)
    requires GoodEnv(env) && d.Valid() && IsOrder(order) && at + 64 <= |area|
    requires HeadDone(d, env, area, at, order, a, al, ss, k, eob, se, rest)
    ensures |a| == 64 && k == TailStart(ss, eob) && d.InSync(env, rest) && Refinable(area, at, order, a, al, k, se)
  {
  }

  // The band up to its end-of-band: where that is, and how long the run is that the block belongs to.
  function FrontFrom(input: seq<Byte>, tbl: JHuffTbl, dt: DDerived, nz: seq<bool>, c: Cursor, eobrun: nat, at: nat, order: seq<nat>,
                     ss: nat, se: nat, al: nat): Outcome<(Cursor, nat, nat)>
    requires IsOrder(order) && |nz| == 64 && se < 64
  {
    if eobrun > 0 then Done((c, ss, eobrun), []) else HeadFrom(input, tbl, dt, nz, c, at, order, ss, se, al, [])
  }

  // The band behind its end-of-band: what is left of the run afterwards.
  function BackFrom(input: seq<Byte>, nz: seq<bool>, c: Cursor, at: nat, order: seq<nat>, k: nat, run: nat, se: nat): Outcome<(Cursor, nat)>
    requires IsOrder(order) && |nz| == 64 && se < 64
  {
    if run == 0 then Done((c, 0), []) else Counted(PassFrom(input, nz, c, at, order, k, -1, se, []), run - 1)
  }

  // One block of the run is completed.
  function Counted(f: Outcome<(Cursor, nat)>, left: nat): (r: Outcome<(Cursor, nat)>)
    ensures r.ws == f.ws
  {
    match f
    case Stuck(ws) => Stuck(ws)
    case Done((c, _), ws) => Done((c, left), ws)
  }

  function After<T>(ws: seq<Write>, f: Outcome<T>): (r: Outcome<T>)
    ensures r.ws == ws + f.ws
  {
    match f
    case Stuck(w) => Stuck(ws + w)
    case Done(v, w) => Done(v, ws + w)
  }

  // decode_mcu_AC_refine for one block that has this pattern of nonzero coefficients
  function RefineFrom(input: seq<Byte>, tbl: JHuffTbl, dt: DDerived, nz: seq<bool>, c: Cursor, eobrun: nat, at: nat, order: seq<nat>,
                      ss: nat, se: nat, al: nat): Outcome<(Cursor, nat)>
    requires IsOrder(order) && |nz| == 64 && se < 64
  {
    var f := FrontFrom(input, tbl, dt, nz, c, eobrun, at, order, ss, se, al);
    if f.Stuck? then Stuck(f.ws) else After(f.ws, BackFrom(input, nz, f.value.0, at, order, f.value.1, f.value.2, se))
  }

  // The band up to the end-of-band, unless the block belongs to a run.
  method RefineFront(d: Reader, t: nat, tbl: JHuffTbl, dt: DDerived, area: array<int>, at: nat, order: seq<nat>, ss: nat, se: nat, al: nat,
                     newnz: array<nat>, ghost env: Env, ghost a: seq<int>, ghost bs: seq<AcBlock>)
    returns (ok: bool, k: nat, num: nat, run: nat, ghost ws: seq<Write>)
    requires d.Valid() && GoodEnv(env) && t < |env| && Accepted(tbl, dt)
    requires IsOrder(order) && 1 <= ss <= se < 64 && at + 64 <= area.Length && newnz.Length == 64
    modifies d`pos, d`unreadMarker, d`getBuffer, d`bitsLeft, d`held, d`insufficientData, area, newnz
    ensures d.Unmarked(ok) && (ok ==> d.Valid()) && num <= 64 && forall i :: 0 <= i < num ==> newnz[i] < 64
    ensures Follows(ok, d.avail == |d.input|,
                    FrontFrom(d.input, tbl, dt, NonZeros(old(area[..]), at, order), old(d.Cur()), d.eobrun, at, order, ss, se, al),
                    (d.Cur(), k, run), ws)
    ensures Went(Corrects(al), old(area[..]), old(area[..]), area[..], at, order, k, se, ws) && (!ok || run > 0 ==> k <= se + 1)
    ensures newnz[..num] == Puts(ws, at)
    ensures Shared(env[t], tbl, dt) && old(AtRefineBlock(d, env, t, area[..], at, order, a, al, ss, se, bs)) ==>
      (d.avail == |d.input| ==> ok)
      && if ok then Fronted(d, env, t, old(area[..]), area[..], newnz[..num], at, order, a, al, ss, k, run, se, bs)
         else k <= se + 1 && Reaches(old(area[..]), area[..], newnz[..num], at, order, a, al, ss, k)
  {
    hide Reader.Valid, Reader.InSync, GoodEnv, Shared, Accepted, IsOrder, AtRefine, Refinable;
    hide FitsShort, Reaches, Fronted, InRun, Stream, EobSymbol, LastNew;
    hide HeadFrom, Went, Puts, NonZeros;
    hide Corr, Raws, AtBlocks, RefineBlock;
    ghost var area0 := area[..];
    ghost var sync := Shared(env[t], tbl, dt) && AtRefineBlock(d, env, t, area0, at, order, a, al, ss, se, bs);
    ok, k, num, run, ws := true, ss, 0, d.eobrun, [];
    WentNowhere(Corrects(al), area0, at, order, ss, se);
    assert newnz[..0] == [];
    if run > 0 {
      if sync { FrontedAtOnce(d, env, t, area0, newnz[..0], at, order, a, al, ss, se, bs); }
      return;
    }
    ghost var eob, e, rest := 0, 0, [];
    if sync {
      eob := LastNew(a, ss, se + 1);
      e, rest := RefineOpens(d, env, t, area0, at, order, a, al, ss, se, bs);
    }
    ok, k, num, run, ws := RefineHead(d, t, tbl, dt, area, at, order, ss, se, al, newnz, env, a, eob, e, rest);
    if sync && ok {
      HeadDoneIs(d, env, area[..], at, order, a, al, ss, k, eob, se, rest);
      FrontedAfterHead(d, env, t, area0, area[..], newnz[..num], at, order, a, al, ss, se, bs, e, rest);
    }
  }

  lemma WentFurther(m: Mender, area0: seq<int>, mid: seq<int>, area: seq<int>, at: nat, order: seq<nat>, from: nat, k: nat, se: nat,
                    ws: seq<Write>, w: seq<Write>)
    requires Went(m, area0, area0, mid, at, order, from, se, ws) && from <= se + 1 && Gone(m, area0, mid, area, at, order, k, se, w)
    ensures Wrote(m, area0, area, ws + w) && Fitting(area0, ws + w) && Puts(ws + w, at) == Puts(ws, at)
  {
    hide Puts;
    WroteMore(m, area0, mid, area, ws, w);
    FittingConcat(area0, ws, w);
    PutsConcat(ws, w, at);
  }

  // Correct what is left of the band after its last new coefficient, and count one block completed.
  method RefineBack(d: Reader, area: array<int>, at: nat, order: seq<nat>, from: nat, run: nat, ss: nat, se: nat, al: nat, newnz: array<nat>, num: nat,
                    ghost ws0: seq<Write>, ghost t: nat, ghost area0: seq<int>, ghost env: Env, ghost a: seq<int>, ghost bs: seq<AcBlock>)
    returns (ok: bool, ghost ws: seq<Write>)
    requires d.Valid() && GoodEnv(env) && IsOrder(order) && 1 <= ss <= se < 64 && at + 64 <= area.Length == |area0|
    requires num <= newnz.Length && forall i :: 0 <= i < num ==> newnz[i] < 64
    requires Went(Corrects(al), area0, area0, area[..], at, order, from, se, ws0) && newnz[..num] == Puts(ws0, at) && (run > 0 ==> from <= se + 1)
    modifies d`pos, d`unreadMarker, d`getBuffer, d`bitsLeft, d`held, d`insufficientData, d`eobrun, area
    ensures d.Unmarked(ok) && (if ok then d.Valid() else d.eobrun == old(d.eobrun))
    ensures Follows(ok, d.avail == |d.input|,
                    BackFrom(d.input, NonZeros(area0, at, order), old(d.Cur()), at, order, from, run, se), (d.Cur(), d.eobrun), ws)
    ensures if ok then Wrote(Corrects(al), area0, area[..], ws0 + ws) else Abandoned(Corrects(al), area0, area[..], ws0 + ws)
    ensures bs != [] && |a| == 64 && FitsShort(a, al) && Refinable(area0, at, order, a, al, ss, se)
            && old(Fronted(d, env, t, area0, area[..], newnz[..num], at, order, a, al, ss, from, run, se, bs)) ==>
      (d.avail == |d.input| ==> ok)
      && if ok then AtBlocks(d, env, t, bs[1..]) && area[..] == Placed(area0, at, order, a, al, ss, se + 1)
         else Refinable(area[..], at, order, a, al, ss, se) && Between(area0, area[..], Placed(area0, at, order, a, al, ss, se + 1))
  {
    hide Reader.Valid, Reader.InSync, GoodEnv, IsOrder, Refinable, FitsShort, Passing, InRun, Between, Placed, News;
    hide PassFrom, Gone, NonZeros, Wrote, Abandoned, Puts, Untouched, Fitting;
    ghost var sync := bs != [] && |a| == 64 && FitsShort(a, al) && Fronted(d, env, t, area0, area[..], newnz[..num], at, order, a, al, ss, from, run, se, bs)
      && Refinable(area0, at, order, a, al, ss, se);
    ghost var after := if sync && run > 0 then InRun(t, run - 1, bs[1..]) else [];
    ghost var now := area[..];
    var k;
    ok, k, ws := true, from, [];
    ghost var m := Corrects(al);
    assert ws0 + [] == ws0;
    if run > 0 {
      if sync { NoneInTail(d, env, now, at, order, a, al, ss, from, se, after); }
      ok, k, ws := CorrectRest(d, area, at, order, from, se, al, area0, env, a, after);
      WentFurther(m, area0, now, area[..], at, order, from, k, se, ws0, ws);
      if sync { PlacedAgain(area0, at, order, a, al, ss, from, k); }
      if !ok {
        UndoIt(area, at, newnz, num, area0, order, a, al, ss, k, se, ws0 + ws);
        return;
      }
    }
    d.eobrun := if run > 0 then run - 1 else 0;
  }

  // No coefficient of a tail is new.
  lemma NoneInTail(d: Reader, env: Env, area: seq<int>, at: nat, order: seq<nat>, a: seq<int>, al: nat, ss: nat, from: nat, se: nat, after: seq<Token>)
    requires GoodEnv(env) && d.Valid() && IsOrder(order) && at + 64 <= |area|
    requires Passing(d, env, area, at, order, a, al, from, se + 1, se, after)
    ensures forall k :: from <= k <= se + 1 ==> News(order, a, ss, k) == News(order, a, ss, from)
  {
    hide Refinable, FitsShort, News;
    forall k | from <= k <= se + 1
      ensures News(order, a, ss, k) == News(order, a, ss, from)
    {
      NoNews(order, a, ss, from, k);
    }
  }

  lemma WentBack(m: Mender, area0: seq<int>, area: seq<int>, at: nat, order: seq<nat>, k: nat, se: nat, ws: seq<Write>)
    requires Went(m, area0, area0, area, at, order, k, se, ws) && k <= se + 1
    ensures Wrote(m, area0, area, ws) && Fitting(area0, ws)
  {
  }

  // decode_mcu_AC_refine for one block
  method DecodeAcRefine(d: Reader, t: nat, tbl: JHuffTbl, dt: DDerived, area: array<int>, at: nat, order: seq<nat>, ss: nat, se: nat, al: nat,
                        ghost env: Env, ghost a: seq<int>, ghost bs: seq<AcBlock>)
    returns (ok: bool, ghost ws: seq<Write>)
    requires d.Valid() && GoodEnv(env) && t < |env| && Accepted(tbl, dt)
    requires IsOrder(order) && 1 <= ss <= se < 64 && at + 64 <= area.Length
    modifies d`pos, d`unreadMarker, d`getBuffer, d`bitsLeft, d`held, d`insufficientData, d`eobrun, area
    ensures d.Unmarked(ok) && (if ok then d.Valid() else d.eobrun == old(d.eobrun))
    ensures Follows(ok, d.avail == |d.input|,
                    RefineFrom(d.input, tbl, dt, NonZeros(old(area[..]), at, order), old(d.Cur()), old(d.eobrun), at, order, ss, se, al),
                    (d.Cur(), d.eobrun), ws)
    ensures if ok then Wrote(Corrects(al), old(area[..]), area[..], ws) else Abandoned(Corrects(al), old(area[..]), area[..], ws)
    ensures Shared(env[t], tbl, dt) && old(AtRefineBlock(d, env, t, area[..], at, order, a, al, ss, se, bs)) ==>
      (d.avail == |d.input| ==> ok)
      && if ok then AtBlocks(d, env, t, bs[1..]) && area[..] == Placed(old(area[..]), at, order, a, al, ss, se + 1)
         else Refinable(area[..], at, order, a, al, ss, se)
              && Between(old(area[..]), area[..], Placed(old(area[..]), at, order, a, al, ss, se + 1))
  {
    hide Reader.Valid, Reader.InSync, GoodEnv, Shared, Accepted, IsOrder, Refinable, FitsShort, Reaches, Fronted, Between, Placed, AtBlocks;
    hide FrontFrom, BackFrom, Wrote, Abandoned, Puts, NonZeros, Fitting, Went;
    ghost var area0 := area[..];
    ghost var sync := Shared(env[t], tbl, dt) && AtRefineBlock(d, env, t, area0, at, order, a, al, ss, se, bs);
    var newnz := new nat[64];
    var k, num, run;
    ok, k, num, run, ws := RefineFront(d, t, tbl, dt, area, at, order, ss, se, al, newnz, env, a, bs);
    if !ok {
      WentBack(Corrects(al), area0, area[..], at, order, k, se, ws);
      UndoIt(area, at, newnz, num, area0, order, a, al, ss, k, se, ws);
      return;
    }
    ghost var w;
    ok, w := RefineBack(d, area, at, order, k, run, ss, se, al, newnz, num, ws, t, area0, env, a, bs);
    ws := ws + w;
  }
}
