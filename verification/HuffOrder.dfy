// Why Huffman's procedure gives a symbol that was counted more often no longer a code (section K.2 of ITU-T T.81).
module HuffOrder {
  const SYMBOLS := 257

  // One bit more for everything on the branch of h.
  function Bumped(cs: seq<nat>, own: seq<int>, h: int): (r: seq<nat>)
    requires |cs| == |own| == SYMBOLS
    ensures |r| == SYMBOLS
  {
    seq(SYMBOLS, i requires 0 <= i < SYMBOLS => if own[i] == h then cs[i] + 1 else cs[i])
  }

  function Joined(own: seq<int>, c1: int, c2: int): (r: seq<int>)
    requires |own| == SYMBOLS
    ensures |r| == SYMBOLS
  {
    seq(SYMBOLS, i requires 0 <= i < SYMBOLS => if own[i] == c2 then c1 else own[i])
  }

  // The weights of the branches that symbol i has been on, from its own count to that of its branch now.
  type Paths = seq<seq<nat>>

  // The two branches become one.
  function Lengthened(paths: Paths, own: seq<int>, c1: int, c2: int, w: nat): (r: Paths)
    requires |paths| == |own| == SYMBOLS
    ensures |r| == SYMBOLS
  {
    seq(SYMBOLS, i requires 0 <= i < SYMBOLS => if own[i] == c1 || own[i] == c2 then paths[i] + [w] else paths[i])
  }

  // Symbol s was counted more often than t, or as often and is the smaller of the two.
  predicate Precedes(counted: seq<nat>, s: nat, t: nat)
    requires s < |counted| && t < |counted|
  {
    counted[s] > counted[t] > 0 || (counted[s] == counted[t] > 0 && s < t)
  }

  // Its code is no longer.
  ghost predicate Ordered(counted: seq<nat>, cs: seq<nat>)
    requires |counted| == |cs| == SYMBOLS
  {
    forall s, t :: 0 <= s < SYMBOLS && 0 <= t < SYMBOLS && Precedes(counted, s, t) ==> cs[s] <= cs[t]
  }

  // ----- one symbol -----

  // The path of a symbol of count n and length l on a branch of weight w.
  predicate PathOk(path: seq<nat>, n: nat, l: nat, w: nat) {
    |path| == l + 1 && path[0] == n && path[l] == w
  }

  // Whatever the symbol's branches were merged with was no heavier than any other branch c, now of weight w.
  ghost predicate NotHeavier(path: seq<nat>, w: nat) {
    forall k :: 1 <= k < |path| ==> path[k] <= path[k - 1] + w
  }

  // The lighter one of the last two branches that were merged.
  function Lighter(path: seq<nat>): int
    requires |path| >= 2
  {
    var a: int := path[|path| - 2];
    var b: int := path[|path| - 1] - a;
    if b < a then b else a
  }

  // That was the first choice, so that c was heavier then, or as heavy and a smaller symbol; h heads the branch.
  predicate Later(path: seq<nat>, h: int, c: nat, w: nat) {
    |path| >= 2 ==> w > Lighter(path) || (w == Lighter(path) && c < h)
  }

  // Symbol i against the branch c.
  ghost predicate Against(path: seq<nat>, h: int, c: nat, w: nat) {
    h != c && w > 0 ==> NotHeavier(path, w) && Later(path, h, c, w)
  }

  // ----- two symbols -----

  // At every level p is at least as heavy as q.
  ghost predicate AtLeastAs(p: seq<nat>, q: seq<nat>) {
    |p| <= |q| && forall k :: 0 <= k < |p| ==> p[k] >= q[k]
  }

  // What a symbol that precedes another has of it: p and q are their paths, h and g head their branches.
  ghost predicate Ahead(p: seq<nat>, h: int, q: seq<nat>, g: int) {
    |p| <= |q|
    && (h != g ==> AtLeastAs(p, q) && (0 < |p| == |q| ==> p[|p| - 1] > q[|q| - 1] || (p[|p| - 1] == q[|q| - 1] && h < g)))
  }

  // ----- all symbols -----

  ghost predicate Tracked(counted: seq<nat>, freq: seq<nat>, cs: seq<nat>, own: seq<int>, paths: Paths) {
    && |counted| == |freq| == |cs| == |own| == |paths| == SYMBOLS
    && (forall i :: 0 <= i < SYMBOLS && counted[i] > 0 ==> 0 <= own[i] < SYMBOLS && PathOk(paths[i], counted[i], cs[i], freq[own[i]]))
    && (forall i, c :: 0 <= i < SYMBOLS && 0 <= c < SYMBOLS && counted[i] > 0 ==> Against(paths[i], own[i], c, freq[c]))
    && forall s, t :: 0 <= s < SYMBOLS && 0 <= t < SYMBOLS && Precedes(counted, s, t) ==> Ahead(paths[s], own[s], paths[t], own[t])
  }

  // c1 is the lightest branch, c2 the lightest of the others; the larger symbol is taken of two that are as light.
  ghost predicate Lightest(freq: seq<nat>, c1: nat, c2: nat) {
    && c1 < |freq| && c2 < |freq| && c1 != c2 && 0 < freq[c1] <= freq[c2]
    && forall c :: 0 <= c < |freq| && c != c1 && freq[c] > 0 ==> LaterThan(freq, c, c1) && (c == c2 || LaterThan(freq, c, c2))
  }

  lemma LightestTwo(freq: seq<nat>, c1: nat, c2: nat)
    requires Lightest(freq, c1, c2)
    ensures c1 < |freq| && c2 < |freq| && c1 != c2 && freq[c1] > 0 && freq[c2] > 0
  {
  }

  predicate LaterThan(freq: seq<nat>, c: nat, d: nat)
    requires c < |freq| && d < |freq|
  {
    freq[c] > freq[d] || (freq[c] == freq[d] && c < d)
  }

  // A longer path against a branch that was not merged.
  lemma StillAgainst(path: seq<nat>, c1: nat, c: nat, w: nat, wh: nat, wo: nat)
    requires path != [] && path[|path| - 1] == wh && w >= wo && w >= wh && wh > 0 && wo > 0 && NotHeavier(path, w)
    requires w > (if wh < wo then wh else wo) || (w == (if wh < wo then wh else wo) && c < c1)
    ensures NotHeavier(path + [wh + wo], w) && Later(path + [wh + wo], c1, c, w)
  {
    var q := path + [wh + wo];
    assert q[|q| - 2] == wh && q[|q| - 1] == wh + wo;
  }

  // A merge keeps the branch c at a distance.
  lemma AgainstKept(path: seq<nat>, h: int, freq: seq<nat>, c1: nat, c2: nat, c: nat)
    requires |freq| == SYMBOLS && Lightest(freq, c1, c2) && c < SYMBOLS && 0 <= h < SYMBOLS && freq[h] > 0
    requires path != [] && path[|path| - 1] == freq[h] && forall b :: 0 <= b < SYMBOLS ==> Against(path, h, b, freq[b])
    ensures var w := freq[c1] + freq[c2]; var freq1 := freq[c1 := w][c2 := 0]; var h1 := if h == c2 then c1 else h;
      Against(if h == c1 || h == c2 then path + [w] else path, h1, c, freq1[c])
  {
    assert Against(path, h, c, freq[c]) && Against(path, h, c1, freq[c1]) && Against(path, h, c2, freq[c2]);
    var w := freq[c1] + freq[c2];
    if h == c1 || h == c2 {
      if c != c1 && c != c2 && freq[c] > 0 {
        var other := if h == c1 then c2 else c1;
        StillAgainst(path, c1, c, freq[c], freq[h], freq[other]);
      }
    }
  }

  // A merge leaves a symbol that precedes another ahead of it.
  lemma AheadKept(p: seq<nat>, h: int, q: seq<nat>, g: int, freq: seq<nat>, c1: nat, c2: nat)
    requires |freq| == SYMBOLS && Lightest(freq, c1, c2) && 0 <= h < SYMBOLS && 0 <= g < SYMBOLS && freq[h] > 0 && freq[g] > 0
    requires p != [] && q != [] && p[|p| - 1] == freq[h] && q[|q| - 1] == freq[g] && Ahead(p, h, q, g)
    requires forall b :: 0 <= b < SYMBOLS ==> Against(q, g, b, freq[b])
    ensures var w := freq[c1] + freq[c2];
      Ahead(if h == c1 || h == c2 then p + [w] else p, if h == c2 then c1 else h, if g == c1 || g == c2 then q + [w] else q, if g == c2 then c1 else g)
  {
    var w := freq[c1] + freq[c2];
    if (h == c1 || h == c2) && g != c1 && g != c2 {
      var z := if h == c1 then c2 else c1;
      assert Against(q, g, z, freq[z]) && Against(q, g, c1, freq[c1]);
      CatchesUp(p, q, g, freq, h, z, c1, c2);
    }
  }

  lemma CatchesUp(p: seq<nat>, q: seq<nat>, g: int, freq: seq<nat>, h: int, z: nat, c1: nat, c2: nat)
    requires |freq| == SYMBOLS && Lightest(freq, c1, c2) && 0 <= h < SYMBOLS && 0 <= g < SYMBOLS && freq[g] > 0
    requires (h == c1 && z == c2) || (h == c2 && z == c1)
    requires g != c1 && g != c2 && p != [] && q != [] && p[|p| - 1] == freq[h] && q[|q| - 1] == freq[g] && Ahead(p, h, q, g)
    requires NotHeavier(q, freq[z]) && Later(q, g, c1, freq[c1])
    ensures Ahead(p + [freq[c1] + freq[c2]], c1, q, g)
  {
    assert LaterThan(freq, g, c1) && LaterThan(freq, g, c2);
    var k := |p|;
    assert k < |q|;
    assert q[k] <= q[k - 1] + freq[z] && q[k - 1] <= p[k - 1];
    var r := p + [freq[c1] + freq[c2]];
    if |r| == |q| && r[k] == q[k] {
      assert q[k - 1] == p[k - 1] && q[k] - q[k - 1] == freq[z];
      assert Lighter(q) == freq[c1];
    }
  }

  // Merging the two lightest branches.
  lemma TrackedKept(counted: seq<nat>, freq: seq<nat>, cs: seq<nat>, own: seq<int>, paths: Paths, c1: nat, c2: nat)
    requires Tracked(counted, freq, cs, own, paths) && Lightest(freq, c1, c2)
    requires forall i :: 0 <= i < SYMBOLS && counted[i] > 0 ==> freq[own[i]] > 0
    ensures var w := freq[c1] + freq[c2];
      Tracked(counted, freq[c1 := w][c2 := 0], Bumped(Bumped(cs, own, c1), own, c2), Joined(own, c1, c2), Lengthened(paths, own, c1, c2, w))
  {
    hide Against, Ahead;
    var w := freq[c1] + freq[c2];
    var freq1, cs1, own1, paths1 := freq[c1 := w][c2 := 0], Bumped(Bumped(cs, own, c1), own, c2), Joined(own, c1, c2), Lengthened(paths, own, c1, c2, w);
    forall i, c | 0 <= i < SYMBOLS && 0 <= c < SYMBOLS && counted[i] > 0
      ensures Against(paths1[i], own1[i], c, freq1[c])
    {
      AgainstKept(paths[i], own[i], freq, c1, c2, c);
    }
    forall s, t | 0 <= s < SYMBOLS && 0 <= t < SYMBOLS && Precedes(counted, s, t)
      ensures Ahead(paths1[s], own1[s], paths1[t], own1[t])
    {
      AheadKept(paths[s], own[s], paths[t], own[t], freq, c1, c2);
    }
  }

  function Alone(counted: seq<nat>): (r: Paths)
    ensures |r| == |counted|
  {
    seq(|counted|, i requires 0 <= i < |counted| => [counted[i]])
  }

  // Each symbol on its own branch.
  lemma TrackedAlone(counted: seq<nat>, cs: seq<nat>, own: seq<int>)
    requires |counted| == |cs| == |own| == SYMBOLS && forall i :: 0 <= i < SYMBOLS ==> cs[i] == 0
    requires forall i :: 0 <= i < SYMBOLS ==> own[i] == if counted[i] > 0 then i else -1
    ensures Tracked(counted, counted, cs, own, Alone(counted))
  {
  }

  lemma TrackedOrdered(counted: seq<nat>, freq: seq<nat>, cs: seq<nat>, own: seq<int>, paths: Paths)
    requires Tracked(counted, freq, cs, own, paths)
    ensures Ordered(counted, cs)
  {
    forall s, t | 0 <= s < SYMBOLS && 0 <= t < SYMBOLS && Precedes(counted, s, t)
      ensures cs[s] <= cs[t]
    {
      assert Ahead(paths[s], own[s], paths[t], own[t]);
    }
  }
}
