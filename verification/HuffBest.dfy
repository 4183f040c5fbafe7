// Why no other code takes fewer bits in total than the one of Huffman's procedure (section K.2 of ITU-T T.81).
module HuffBest {
  import opened Numbers
  import opened HuffOrder

  // The bits that all symbols take together.
  function Cost(w: seq<nat>, l: seq<nat>, n: nat): nat
    requires |w| == |l| && n <= |w|
  {
    if n == 0 then 0 else Cost(w, l, n - 1) + w[n - 1] * l[n - 1]
  }

  // The code space that they take, in units of 2^-top.
  function Space(w: seq<nat>, l: seq<nat>, n: nat, top: nat): nat
    requires |w| == |l| && n <= |w|
  {
    if n == 0 then 0 else Space(w, l, n - 1, top) + Share(w[n - 1], l[n - 1], top)
  }

  function Share(w: nat, l: nat, top: nat): nat {
    if w > 0 && l <= top then Pow2(top - l) else 0
  }

  // The symbols that have a weight can have a prefix code of these lengths.
  ghost predicate Fits(w: seq<nat>, l: seq<nat>, top: nat) {
    && |w| == |l| == SYMBOLS && (forall i :: 0 <= i < SYMBOLS && w[i] > 0 ==> l[i] <= top)
    && Space(w, l, SYMBOLS, top) <= Pow2(top)
  }

  // ----- changing one length -----

  lemma {:induction false} CostUpdate(w: seq<nat>, l: seq<nat>, n: nat, i: nat, v: nat)
    requires |w| == |l| && n <= |w| && i < |w|
    ensures Cost(w, l[i := v], n) == Cost(w, l, n) + if i < n then w[i] * v - w[i] * l[i] else 0
  {
    if n > 0 { CostUpdate(w, l, n - 1, i, v); }
  }

  lemma {:induction false} SpaceUpdate(w: seq<nat>, l: seq<nat>, n: nat, i: nat, v: nat, top: nat)
    requires |w| == |l| && n <= |w| && i < |w|
    ensures Space(w, l[i := v], n, top) == Space(w, l, n, top) + if i < n then Share(w[i], v, top) - Share(w[i], l[i], top) else 0
  {
    hide Share;
    if n > 0 { SpaceUpdate(w, l, n - 1, i, v, top); }
  }

  lemma {:induction false} CostSame(w: seq<nat>, l: seq<nat>, m: seq<nat>, n: nat)
    requires |w| == |l| == |m| && n <= |w| && forall i :: 0 <= i < n && w[i] > 0 ==> l[i] == m[i]
    ensures Cost(w, l, n) == Cost(w, m, n)
  {
    if n > 0 { CostSame(w, l, m, n - 1); }
  }

  // And one weight.
  lemma {:induction false} CostWeight(w: seq<nat>, l: seq<nat>, n: nat, i: nat, v: nat)
    requires |w| == |l| && n <= |w| && i < |w|
    ensures Cost(w[i := v], l, n) == Cost(w, l, n) + if i < n then v * l[i] - w[i] * l[i] else 0
  {
    if n > 0 { CostWeight(w, l, n - 1, i, v); }
  }

  lemma {:induction false} SpaceWeight(w: seq<nat>, l: seq<nat>, n: nat, i: nat, v: nat, top: nat)
    requires |w| == |l| && n <= |w| && i < |w|
    ensures Space(w[i := v], l, n, top) == Space(w, l, n, top) + if i < n then Share(v, l[i], top) - Share(w[i], l[i], top) else 0
  {
    hide Share;
    if n > 0 { SpaceWeight(w, l, n - 1, i, v, top); }
  }

  // ----- exchanging two lengths -----

  // The lighter symbol takes the longer code.
  lemma Exchanged(w: seq<nat>, l: seq<nat>, top: nat, i: nat, j: nat) returns (m: seq<nat>)
    requires Fits(w, l, top) && i < SYMBOLS && j < SYMBOLS && 0 < w[i] <= w[j] && l[i] <= l[j]
    ensures Fits(w, m, top) && Cost(w, m, SYMBOLS) <= Cost(w, l, SYMBOLS)
    ensures m == l[i := l[j]][j := l[i]]
  {
    m := l[i := l[j]][j := l[i]];
    CostUpdate(w, l, SYMBOLS, i, l[j]);
    CostUpdate(w, l[i := l[j]], SYMBOLS, j, l[i]);
    SpaceUpdate(w, l, SYMBOLS, i, l[j], top);
    SpaceUpdate(w, l[i := l[j]], SYMBOLS, j, l[i], top);
    hide Cost, Space;
    if i != j { Rearranged(w[i], w[j], l[i], l[j]); }
  }

  lemma Rearranged(a: nat, b: nat, x: nat, y: nat)
    requires a <= b && x <= y
    ensures a * y + b * x <= a * x + b * y
  {
    assert (b - a) * (y - x) >= 0;
    assert b * y - b * x - a * y + a * x == (b - a) * (y - x);
  }

  // The longest code among the first n symbols that have a weight, `except` not counted.
  lemma {:induction false} LongestOf(w: seq<nat>, l: seq<nat>, n: nat, except: int, some: nat) returns (x: nat)
    requires |w| == |l| && some < n <= |w| && w[some] > 0 && some != except
    ensures x < n && w[x] > 0 && x != except
    ensures forall i :: 0 <= i < n && w[i] > 0 && i != except ==> l[i] <= l[x]
  {
    if some == n - 1 {
      x := some;
      if y :| 0 <= y < n - 1 && w[y] > 0 && y != except {
        x := LongestOf(w, l, n - 1, except, y);
        if l[x] < l[some] { x := some; }
      }
    } else {
      x := LongestOf(w, l, n - 1, except, some);
      if w[n - 1] > 0 && n - 1 != except && l[x] < l[n - 1] { x := n - 1; }
    }
  }

  // ----- the two lightest symbols -----

  // The two lightest symbols can have the two longest codes.
  lemma LightestLongest(w: seq<nat>, l: seq<nat>, top: nat, c1: nat, c2: nat) returns (m: seq<nat>)
    requires Fits(w, l, top) && Lightest(w, c1, c2)
    ensures Fits(w, m, top) && Cost(w, m, SYMBOLS) <= Cost(w, l, SYMBOLS) && m[c1] >= m[c2]
    ensures forall i :: 0 <= i < SYMBOLS && w[i] > 0 && i != c1 ==> m[i] <= m[c2]
  {
    hide Space, Cost;
    var x := LongestOf(w, l, SYMBOLS, -1, c1);
    LighterThan(w, c1, c2, x);
    var k := Exchanged(w, l, top, c1, x);
    var y := LongestOf(w, k, SYMBOLS, c1, c2);
    LighterThan(w, c1, c2, y);
    m := Exchanged(w, k, top, c2, y);
  }

  lemma LighterThan(w: seq<nat>, c1: nat, c2: nat, x: nat)
    requires Lightest(w, c1, c2) && x < |w| && w[x] > 0
    ensures w[c1] <= w[x] && (x != c1 ==> w[c2] <= w[x])
  {
  }

  // If one code is longer than all others it can be as short as the longest of those.
  lemma Shortened(w: seq<nat>, l: seq<nat>, top: nat, c1: nat, c2: nat) returns (m: seq<nat>)
    requires Fits(w, l, top) && Lightest(w, c1, c2) && l[c1] >= l[c2]
    requires forall i :: 0 <= i < SYMBOLS && w[i] > 0 && i != c1 ==> l[i] <= l[c2]
    ensures Fits(w, m, top) && Cost(w, m, SYMBOLS) <= Cost(w, l, SYMBOLS) && m == l[c1 := l[c2]]
  {
    m := l[c1 := l[c2]];
    hide Space, Cost, Lightest;
    LightestTwo(w, c1, c2);
    CostUpdate(w, l, SYMBOLS, c1, l[c2]);
    MulMore(w[c1], l[c2], l[c1]);
    if l[c1] > l[c2] { Room(w, l, top, c1, c2); } else { assert m == l; }
  }

  lemma Room(w: seq<nat>, l: seq<nat>, top: nat, c1: nat, c2: nat)
    requires Fits(w, l, top) && c1 < SYMBOLS && c2 < SYMBOLS && c1 != c2 && w[c1] > 0 && w[c2] > 0 && l[c1] > l[c2]
    requires forall i :: 0 <= i < SYMBOLS && w[i] > 0 && i != c1 ==> l[i] <= l[c2]
    ensures Fits(w, l[c1 := l[c2]], top)
  {
    hide Space, Pow2;
    SpaceUpdate(w, l, SYMBOLS, c1, l[c2], top);
    SpaceWeight(w, l, SYMBOLS, c1, 0, top);
    var d := top - l[c2];
    SpaceMultiple(w[c1 := 0], l, SYMBOLS, d, top);
    Pow2Plus(d, l[c2]);
    RoomForOne(Space(w[c1 := 0], l, SYMBOLS, top), Pow2(d), Pow2(l[c2]));
  }

  lemma MulMore(a: nat, x: nat, y: nat)
    requires x <= y
    ensures a * x <= a * y
  {
  }

  // Code space that comes in pieces of a size has room for one more piece if it has room at all.
  lemma RoomForOne(s: nat, p: nat, q: nat)
    requires p >= 1 && s % p == 0 && s < p * q
    ensures s + p <= p * q
  {
    var k := s / p;
    assert s == k * p;
    if k >= q { MulLe(q, k, p); } else { MulLe(k + 1, q, p); MulDist(k, 1, p); }
  }

  lemma {:induction false} SpaceMultiple(w: seq<nat>, l: seq<nat>, n: nat, d: nat, top: nat)
    requires |w| == |l| && n <= |w| && d <= top && forall i :: 0 <= i < n && w[i] > 0 ==> l[i] <= top - d
    ensures Space(w, l, n, top) % Pow2(d) == 0
  {
    if n > 0 {
      SpaceMultiple(w, l, n - 1, d, top);
      ShareMultiple(w[n - 1], l[n - 1], d, top);
      hide Share, Pow2;
      SumMultiple(Space(w, l, n - 1, top), Share(w[n - 1], l[n - 1], top), Pow2(d));
    } else {
      ModZero(0, Pow2(d));
    }
  }

  lemma ShareMultiple(w: nat, l: nat, d: nat, top: nat)
    requires d <= top && (w > 0 ==> l <= top - d)
    ensures Share(w, l, top) % Pow2(d) == 0
  {
    hide Pow2;
    if w > 0 {
      Pow2Plus(top - d - l, d);
      ModZero(Pow2(top - d - l), Pow2(d));
    } else {
      ModZero(0, Pow2(d));
    }
  }

  lemma SumMultiple(s: nat, t: nat, p: nat)
    requires p >= 1 && s % p == 0 && t % p == 0
    ensures (s + t) % p == 0
  {
    var q, k := s / p, t / p;
    assert s == q * p && t == k * p;
    MulDist(q, k, p);
    ModZero(q + k, p);
  }

  lemma ModZero(q: nat, p: nat)
    requires p >= 1
    ensures q * p % p == 0
  {
    var x := q * p;
    var d := x / p;
    assert x == d * p + x % p;
    if d < q { MulLe(d + 1, q, p); MulDist(d, 1, p); } else if d > q { MulLe(q + 1, d, p); MulDist(q, 1, p); }
  }

  // A code for the symbols is one for the merged symbols, and a bit for each of the two.
  lemma OneLess(w: seq<nat>, l: seq<nat>, top: nat, c1: nat, c2: nat) returns (m: seq<nat>)
    requires Fits(w, l, top) && Lightest(w, c1, c2)
    ensures var sum := w[c1] + w[c2]; var w1 := w[c1 := sum][c2 := 0];
      Fits(w1, m, top) && Cost(w1, m, SYMBOLS) + sum <= Cost(w, l, SYMBOLS)
  {
    hide Space, Cost, Lightest;
    LightestTwo(w, c1, c2);
    var a := LightestLongest(w, l, top, c1, c2);
    var b := Shortened(w, a, top, c1, c2);
    m := OneForBoth(w, b, top, c1, c2);
  }

  // A code for both instead of one for each.
  lemma OneForBoth(w: seq<nat>, l: seq<nat>, top: nat, c1: nat, c2: nat) returns (m: seq<nat>)
    requires Fits(w, l, top) && c1 < SYMBOLS && c2 < SYMBOLS && c1 != c2 && w[c1] > 0 && w[c2] > 0 && l[c1] == l[c2]
    ensures var sum := w[c1] + w[c2]; var w1 := w[c1 := sum][c2 := 0];
      Fits(w1, m, top) && Cost(w1, m, SYMBOLS) + sum == Cost(w, l, SYMBOLS)
  {
    hide Space, Cost, Share;
    var sum, x := w[c1] + w[c2], l[c1];
    TwoShares(w, l, top, c1, c2);
    m := l[c1 := x - 1];
    var w0 := w[c1 := sum];
    CostWeight(w, l, SYMBOLS, c1, sum);
    CostWeight(w0, l, SYMBOLS, c2, 0);
    CostUpdate(w0[c2 := 0], l, SYMBOLS, c1, x - 1);
    SpaceWeight(w, l, SYMBOLS, c1, sum, top);
    SpaceWeight(w0, l, SYMBOLS, c2, 0, top);
    SpaceUpdate(w0[c2 := 0], l, SYMBOLS, c1, x - 1, top);
    SharesMerge(w[c1], w[c2], x, top);
    Distributed(w[c1], w[c2], x);
  }

  lemma SharesMerge(a: nat, b: nat, x: nat, top: nat)
    requires a > 0 && b > 0 && 1 <= x <= top
    ensures Share(a + b, x - 1, top) == Share(a, x, top) + Share(b, x, top)
    ensures Share(0, x, top) == 0
  {
  }

  lemma Distributed(a: nat, b: nat, x: nat)
    requires x >= 1
    ensures a * x + b * x == (a + b) * (x - 1) + (a + b)
  {
  }

  // Two codes cannot both be empty.
  lemma TwoShares(w: seq<nat>, l: seq<nat>, top: nat, c1: nat, c2: nat)
    requires Fits(w, l, top) && c1 < SYMBOLS && c2 < SYMBOLS && c1 != c2 && w[c1] > 0 && w[c2] > 0 && l[c1] == l[c2]
    ensures l[c1] >= 1
  {
    SpaceWeight(w, l, SYMBOLS, c1, 0, top);
    SpaceWeight(w[c1 := 0], l, SYMBOLS, c2, 0, top);
  }

  // ----- the procedure -----

  // Nothing on the branches h and up to n yet.
  function Weight(counted: seq<nat>, own: seq<int>, h: int, n: nat): nat
    requires |counted| == |own| && n <= |own|
  {
    if n == 0 then 0 else Weight(counted, own, h, n - 1) + if own[n - 1] == h then counted[n - 1] else 0
  }

  lemma {:induction false} WeightJoined(counted: seq<nat>, own: seq<int>, c1: int, c2: int, h: int, n: nat)
    requires |counted| == |own| == SYMBOLS && n <= SYMBOLS && c1 != c2
    ensures Weight(counted, Joined(own, c1, c2), h, n) ==
      if h == c1 then Weight(counted, own, c1, n) + Weight(counted, own, c2, n) else if h == c2 then 0 else Weight(counted, own, h, n)
  {
    if n > 0 { WeightJoined(counted, own, c1, c2, h, n - 1); }
  }

  lemma {:induction false} CostBumped(counted: seq<nat>, cs: seq<nat>, own: seq<int>, h: int, n: nat)
    requires |counted| == |cs| == |own| == SYMBOLS && n <= SYMBOLS
    ensures Cost(counted, Bumped(cs, own, h), n) == Cost(counted, cs, n) + Weight(counted, own, h, n)
  {
    if n > 0 {
      CostBumped(counted, cs, own, h, n - 1);
      if own[n - 1] == h { OneMoreBit(counted[n - 1], cs[n - 1]); }
    }
  }

  lemma OneMoreBit(a: nat, x: nat)
    ensures a * (x + 1) == a * x + a
  {
  }

  // Whatever code there is, the branches can have one that takes no more with the bits already given out.
  ghost predicate NoWorse(counted: seq<nat>, freq: seq<nat>, spent: nat)
    requires |counted| == |freq| == SYMBOLS
  {
    forall l, top :: Fits(counted, l, top) ==> exists m :: Cheaper(counted, l, freq, m, top, spent)
  }

  ghost predicate Cheaper(counted: seq<nat>, l: seq<nat>, freq: seq<nat>, m: seq<nat>, top: nat, spent: nat)
    requires Fits(counted, l, top) && |freq| == SYMBOLS
  {
    Fits(freq, m, top) && Cost(freq, m, SYMBOLS) + spent <= Cost(counted, l, SYMBOLS)
  }

  ghost predicate Thrifty(counted: seq<nat>, freq: seq<nat>, cs: seq<nat>, own: seq<int>)
    requires |counted| == |freq| == |cs| == |own| == SYMBOLS
  {
    && (forall h :: 0 <= h < SYMBOLS && freq[h] > 0 ==> Weight(counted, own, h, SYMBOLS) == freq[h])
    && NoWorse(counted, freq, Cost(counted, cs, SYMBOLS))
  }

  lemma ThriftyAlone(counted: seq<nat>, cs: seq<nat>, own: seq<int>)
    requires |counted| == |cs| == |own| == SYMBOLS && forall i :: 0 <= i < SYMBOLS ==> cs[i] == 0
    requires forall i :: 0 <= i < SYMBOLS ==> own[i] == if counted[i] > 0 then i else -1
    ensures Thrifty(counted, counted, cs, own)
  {
    NoCost(counted, cs, SYMBOLS);
    forall h | 0 <= h < SYMBOLS && counted[h] > 0
      ensures Weight(counted, own, h, SYMBOLS) == counted[h]
    {
      WeightAlone(counted, own, h, SYMBOLS);
    }
    hide Fits, Cost, Weight;
    forall l, top | Fits(counted, l, top)
      ensures exists m :: Cheaper(counted, l, counted, m, top, 0)
    {
      assert Cheaper(counted, l, counted, l, top, 0);
    }
  }

  lemma {:induction false} NoCost(w: seq<nat>, l: seq<nat>, n: nat)
    requires |w| == |l| && n <= |w| && forall i :: 0 <= i < |l| ==> l[i] == 0
    ensures Cost(w, l, n) == 0
  {
    if n > 0 { NoCost(w, l, n - 1); }
  }

  lemma {:induction false} WeightAlone(counted: seq<nat>, own: seq<int>, h: nat, n: nat)
    requires |counted| == |own| && n <= |own| && h < |own| && forall i :: 0 <= i < |own| ==> (own[i] == h <==> i == h)
    ensures Weight(counted, own, h, n) == if h < n then counted[h] else 0
  {
    if n > 0 { WeightAlone(counted, own, h, n - 1); }
  }

  lemma ThriftyKept(counted: seq<nat>, freq: seq<nat>, cs: seq<nat>, own: seq<int>, c1: nat, c2: nat)
    requires |counted| == |freq| == |cs| == |own| == SYMBOLS && Thrifty(counted, freq, cs, own) && Lightest(freq, c1, c2)
    ensures Thrifty(counted, freq[c1 := freq[c1] + freq[c2]][c2 := 0], Bumped(Bumped(cs, own, c1), own, c2), Joined(own, c1, c2))
  {
    LightestTwo(freq, c1, c2);
    var sum := freq[c1] + freq[c2];
    var freq1, spent := freq[c1 := sum][c2 := 0], Cost(counted, cs, SYMBOLS);
    forall h | 0 <= h < SYMBOLS && freq1[h] > 0
      ensures Weight(counted, Joined(own, c1, c2), h, SYMBOLS) == freq1[h]
    {
      WeightJoined(counted, own, c1, c2, h, SYMBOLS);
    }
    CostBumped(counted, cs, own, c1, SYMBOLS);
    CostBumped(counted, Bumped(cs, own, c1), own, c2, SYMBOLS);
    var total := spent + sum;
    assert Cost(counted, Bumped(Bumped(cs, own, c1), own, c2), SYMBOLS) == total;
    hide Fits, Cost, Weight, Lightest;
    forall l, top | Fits(counted, l, top)
      ensures exists m :: Cheaper(counted, l, freq1, m, top, total)
    {
      var k :| Cheaper(counted, l, freq, k, top, spent);
      var m := OneLess(freq, k, top, c1, c2);
      assert Cheaper(counted, l, freq1, m, top, total);
    }
  }

  // No code takes fewer bits.
  ghost predicate Cheapest(counted: seq<nat>, cs: seq<nat>)
    requires |counted| == |cs| == SYMBOLS
  {
    forall l, top :: Fits(counted, l, top) ==> Cost(counted, cs, SYMBOLS) <= Cost(counted, l, SYMBOLS)
  }

  lemma ThriftyCheapest(counted: seq<nat>, freq: seq<nat>, cs: seq<nat>, own: seq<int>)
    requires |counted| == |freq| == |cs| == |own| == SYMBOLS && Thrifty(counted, freq, cs, own)
    ensures Cheapest(counted, cs)
  {
    hide Cost, Weight, Space;
    var spent := Cost(counted, cs, SYMBOLS);
    forall l, top | Fits(counted, l, top)
      ensures spent <= Cost(counted, l, SYMBOLS)
    {
      var m :| Cheaper(counted, l, freq, m, top, spent);
    }
  }
}
