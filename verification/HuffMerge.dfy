// The first half of jpeg_gen_optimal_table: Huffman's procedure on linked branches (section K.2 of ITU-T T.81).
module HuffMerge {
  import opened HuffOrder
  import opened HuffBest

  // Initial value of the search for the smallest count.
  const LIMIT := 1000000000

  function Fib(n: nat): nat {
    if n < 2 then n else Fib(n - 1) + Fib(n - 2)
  }

  lemma {:induction false} FibGrows(m: nat, n: nat)
    requires m <= n
    ensures Fib(m) <= Fib(n)
  {
    if m < n { FibGrows(m, n - 1); }
  }

  // 2^-k
  function Inv(k: nat): (r: real)
    ensures 0.0 < r <= 1.0
    ensures k > 0 ==> r <= 0.5
  {
    if k == 0 then 1.0 else Inv(k - 1) / 2.0
  }

  function Sum(s: seq<nat>): nat {
    if s == [] then 0 else Sum(s[..|s| - 1]) + s[|s| - 1]
  }

  // How many symbols have a count.
  function Live(s: seq<nat>): nat {
    if s == [] then 0 else Live(s[..|s| - 1]) + if s[|s| - 1] > 0 then 1 else 0
  }

  lemma {:induction false} SumUpdate(s: seq<nat>, i: nat, x: nat)
    requires i < |s|
    ensures Sum(s[i := x]) == Sum(s) - s[i] + x
    ensures Live(s[i := x]) == Live(s) - (if s[i] > 0 then 1 else 0) + (if x > 0 then 1 else 0)
  {
    var t, n := s[i := x], |s| - 1;
    if i < n {
      assert t[..n] == s[..n][i := x];
      SumUpdate(s[..n], i, x);
    } else {
      assert t[..n] == s[..n];
    }
  }

  lemma {:induction false} SumAtLeast(s: seq<nat>, i: nat)
    requires i < |s|
    ensures s[i] <= Sum(s)
  {
    if i < |s| - 1 { SumAtLeast(s[..|s| - 1], i); }
  }

  lemma SumPair(s: seq<nat>, i: nat, j: nat)
    requires i < |s| && j < |s| && i != j
    ensures s[i] + s[j] <= Sum(s)
  {
    SumUpdate(s, i, 0);
    SumAtLeast(s[i := 0], j);
  }

  // ----- branches -----

  // b lists exactly the symbols that c owns, once each.
  ghost predicate Lists(b: seq<nat>, own: seq<int>, c: nat)
    requires |own| == SYMBOLS
  {
    && (forall k :: 0 <= k < |b| ==> b[k] < SYMBOLS && own[b[k]] == c)
    && (forall j, k :: 0 <= j < k < |b| ==> b[j] != b[k])
    && forall i :: 0 <= i < SYMBOLS && own[i] == c ==> i in b
  }

  // What follows the k-th symbol of a branch.
  function Link(b: seq<nat>, k: nat): int
    requires k < |b|
  {
    if k + 1 < |b| then b[k + 1] else -1
  }

  // others links the symbols of b, which ends in -1.
  ghost predicate Chain(b: seq<nat>, others: seq<int>)
    requires |others| == SYMBOLS
  {
    forall k :: 0 <= k < |b| ==> b[k] < SYMBOLS && others[b[k]] == Link(b, k)
  }

  lemma ChainAt(b: seq<nat>, others: seq<int>, k: nat)
    requires |others| == SYMBOLS && Chain(b, others) && k < |b|
    ensures b[k] < SYMBOLS && if k + 1 < |b| then others[b[k]] == b[k + 1] else others[b[k]] == -1
  {
  }

  // own[i] is the symbol whose branch i is on, -1 if i has no count; branch[c] lists the branch of c, c first; paths are the weights
  // of the branches each symbol has been on.
  datatype Forest = Forest(own: seq<int>, branch: seq<seq<nat>>, paths: Paths) {
    ghost function Ok(freq: seq<nat>, others: seq<int>): (ok: bool)
      requires |freq| == |others| == SYMBOLS
      ensures ok ==> |own| == |branch| == |paths| == SYMBOLS
    {
      && |own| == |branch| == |paths| == SYMBOLS
      && (forall i :: 0 <= i < SYMBOLS ==> -1 <= own[i] < SYMBOLS)
      && forall c :: 0 <= c < SYMBOLS ==> BranchOk(branch[c], own, c, freq[c], others)
    }
  }

  // The symbols with a count are the heads of the branches.
  ghost predicate BranchOk(b: seq<nat>, own: seq<int>, c: nat, count: nat, others: seq<int>)
    requires |own| == |others| == SYMBOLS
  {
    Lists(b, own, c) && Chain(b, others) && if count == 0 then b == [] else b != [] && b[0] == c
  }

  // Kraft sum of the first n symbols owned by h.
  function KraftOf(cs: seq<nat>, own: seq<int>, h: int, n: nat): (r: real)
    requires |cs| == |own| == SYMBOLS && n <= SYMBOLS
    ensures r >= 0.0
  {
    if n == 0 then 0.0
    else KraftOf(cs, own, h, n - 1) + if own[n - 1] == h then Inv(cs[n - 1]) else 0.0
  }

  lemma {:induction false} KraftBumped(cs: seq<nat>, own: seq<int>, h: int, g: int, n: nat)
    requires |cs| == |own| == SYMBOLS && n <= SYMBOLS
    ensures KraftOf(Bumped(cs, own, h), own, g, n) == if g == h then KraftOf(cs, own, g, n) / 2.0 else KraftOf(cs, own, g, n)
  {
    if n > 0 { KraftBumped(cs, own, h, g, n - 1); }
  }

  lemma {:induction false} KraftJoined(cs: seq<nat>, own: seq<int>, c1: int, c2: int, g: int, n: nat)
    requires |cs| == |own| == SYMBOLS && n <= SYMBOLS && c1 != c2
    ensures KraftOf(cs, Joined(own, c1, c2), g, n) ==
      if g == c1 then KraftOf(cs, own, c1, n) + KraftOf(cs, own, c2, n)
      else if g == c2 then 0.0 else KraftOf(cs, own, g, n)
  {
    if n > 0 { KraftJoined(cs, own, c1, c2, g, n - 1); }
  }

  // Every branch is a complete prefix code.
  ghost predicate Complete(freq: seq<nat>, cs: seq<nat>, own: seq<int>)
    requires |freq| == |cs| == |own| == SYMBOLS
  {
    forall c :: 0 <= c < SYMBOLS && freq[c] > 0 ==> KraftOf(cs, own, c, SYMBOLS) == 1.0
  }

  // Deep branches are heavy, and so is everything beside them.
  ghost predicate Heavy(freq: seq<nat>, cs: seq<nat>, own: seq<int>)
    requires |freq| == |cs| == |own| == SYMBOLS
  {
    forall c :: 0 <= c < SYMBOLS ==> HeavyBranch(freq[c], cs, own, c)
  }

  ghost predicate HeavyBranch(w: nat, cs: seq<nat>, own: seq<int>, c: nat)
    requires |cs| == |own| == SYMBOLS
  {
    forall i :: 0 <= i < SYMBOLS ==> HeavyPair(w, cs[i], own[i], c)
  }

  // A branch of weight w, if any, headed by c, compared with a symbol of length l on the branch of h.
  predicate HeavyPair(w: nat, l: nat, h: int, c: nat) {
    h >= 0 && w > 0 ==> w >= if c == h then Fib(l + 2) else Fib(l + 1)
  }

  lemma MergeComplete(freq: seq<nat>, cs: seq<nat>, own: seq<int>, c1: nat, c2: nat)
    requires |freq| == |cs| == |own| == SYMBOLS && c1 < SYMBOLS && c2 < SYMBOLS && c1 != c2
    requires freq[c1] > 0 && freq[c2] > 0 && Complete(freq, cs, own)
    ensures Complete(freq[c1 := freq[c1] + freq[c2]][c2 := 0], Bumped(Bumped(cs, own, c1), own, c2), Joined(own, c1, c2))
  {
    var cs1 := Bumped(cs, own, c1);
    var cs2 := Bumped(cs1, own, c2);
    forall c | 0 <= c < SYMBOLS && freq[c] > 0 && c != c2
      ensures KraftOf(cs2, Joined(own, c1, c2), c, SYMBOLS) == 1.0
    {
      KraftBumped(cs, own, c1, c, SYMBOLS);
      KraftBumped(cs1, own, c2, c, SYMBOLS);
      KraftBumped(cs, own, c1, c2, SYMBOLS);
      KraftBumped(cs1, own, c2, c2, SYMBOLS);
      KraftJoined(cs2, own, c1, c2, c, SYMBOLS);
    }
  }

  // The two merged are the lightest.
  lemma MergeHeavy(freq: seq<nat>, cs: seq<nat>, own: seq<int>, c1: nat, c2: nat)
    requires |freq| == |cs| == |own| == SYMBOLS
    requires c1 < SYMBOLS && c2 < SYMBOLS && c1 != c2 && freq[c1] > 0 && freq[c2] > 0 && Heavy(freq, cs, own)
    requires forall c :: 0 <= c < SYMBOLS && freq[c] > 0 && c != c1 ==> freq[c1] <= freq[c] && freq[c2] <= freq[c]
    ensures Heavy(freq[c1 := freq[c1] + freq[c2]][c2 := 0], Bumped(Bumped(cs, own, c1), own, c2), Joined(own, c1, c2))
  {
    var freq1 := freq[c1 := freq[c1] + freq[c2]][c2 := 0];
    var cs2, own1 := Bumped(Bumped(cs, own, c1), own, c2), Joined(own, c1, c2);
    forall c | 0 <= c < SYMBOLS
      ensures HeavyBranch(freq1[c], cs2, own1, c)
    {
      assert HeavyBranch(freq[c], cs, own, c) && HeavyBranch(freq[c1], cs, own, c1) && HeavyBranch(freq[c2], cs, own, c2);
      forall i | 0 <= i < SYMBOLS
        ensures HeavyPair(freq1[c], cs2[i], own1[i], c)
      {
        assert HeavyPair(freq[c], cs[i], own[i], c) && HeavyPair(freq[c1], cs[i], own[i], c1) && HeavyPair(freq[c2], cs[i], own[i], c2);
      }
    }
  }

  // ----- the procedure -----

  // The two smallest counts.
  lemma TwoSmallest(freq: seq<nat>, c1: nat, c2: nat)
    requires |freq| == SYMBOLS && c1 < SYMBOLS && c2 < SYMBOLS && c1 != c2 && freq[c1] > 0 && freq[c2] > 0
    requires forall i :: 0 <= i < SYMBOLS && freq[i] > 0 ==> freq[c1] <= freq[i] && (freq[i] == freq[c1] ==> i <= c1)
    requires forall i :: 0 <= i < SYMBOLS && i != c1 && freq[i] > 0 ==> freq[c2] <= freq[i] && (freq[i] == freq[c2] ==> i <= c2)
    ensures Lightest(freq, c1, c2)
  {
  }

  // Smallest count but that of `except`; of equal counts the one of the larger symbol.
  method FindSmallest(freq: array<nat>, except: int) returns (c: int)
    requires freq.Length == SYMBOLS
    ensures -1 <= c < SYMBOLS
    ensures c == -1 <==> forall i :: 0 <= i < SYMBOLS && i != except ==> freq[i] == 0 || freq[i] > LIMIT
    ensures c >= 0 ==> c != except && 0 < freq[c] <= LIMIT
    ensures c >= 0 ==> forall i :: 0 <= i < SYMBOLS && i != except && freq[i] > 0 ==>
      freq[c] <= freq[i] && (freq[i] == freq[c] ==> i <= c)
  {
    c := -1;
    var v := LIMIT;
    for i := 0 to SYMBOLS
      invariant -1 <= c < i && (c >= 0 ==> c != except)
      invariant if c == -1 then v == LIMIT else v == freq[c] && 0 < v <= LIMIT
      invariant forall j :: 0 <= j < i && j != except && freq[j] > 0 ==> if c == -1 then freq[j] > LIMIT else v < freq[j] || (v == freq[j] && j <= c)
    {
      if freq[i] != 0 && freq[i] <= v && i != except {
        v := freq[i];
        c := i;
      }
    }
  }

  // One bit more for the first k symbols of a branch.
  ghost function BumpedBy(cs: seq<nat>, b: seq<nat>, k: nat): (r: seq<nat>)
    requires |cs| == SYMBOLS && k <= |b|
    ensures |r| == SYMBOLS
  {
    seq(SYMBOLS, i requires 0 <= i < SYMBOLS => if i in b[..k] then cs[i] + 1 else cs[i])
  }

  lemma BumpStep(cs: seq<nat>, b: seq<nat>, own: seq<int>, c: nat, k: nat)
    requires |cs| == |own| == SYMBOLS && Lists(b, own, c) && k < |b|
    ensures b[k] < SYMBOLS && BumpedBy(cs, b, k)[b[k]] == cs[b[k]]
    ensures BumpedBy(cs, b, k + 1) == BumpedBy(cs, b, k)[b[k] := cs[b[k]] + 1]
  {
    assert b[..k + 1] == b[..k] + [b[k]];
    forall j | 0 <= j < k
      ensures b[j] != b[k]
    {
    }
  }

  lemma BumpEnds(cs: seq<nat>, b: seq<nat>, own: seq<int>, c: nat)
    requires |cs| == |own| == SYMBOLS && Lists(b, own, c)
    ensures BumpedBy(cs, b, 0) == cs && BumpedBy(cs, b, |b|) == Bumped(cs, own, c)
  {
    assert b[..|b|] == b && b[..0] == [];
    forall i | 0 <= i < SYMBOLS
      ensures i in b <==> own[i] == c
    {
    }
  }

  // One more bit for every symbol of a branch; returns the last of them.
  method Walk(codesize: array<nat>, others: array<int>, head: nat, ghost b: seq<nat>, ghost own: seq<int>) returns (last: nat)
    requires codesize.Length == others.Length == |own| == SYMBOLS && head < SYMBOLS
    requires Lists(b, own, head) && Chain(b, others[..]) && b != [] && b[0] == head
    modifies codesize
    ensures codesize[..] == Bumped(old(codesize[..]), own, head)
    ensures last == b[|b| - 1]
  {
    hide Lists, Chain, BumpedBy, Bumped;
    ghost var cs, links, k := codesize[..], others[..], 0;
    BumpEnds(cs, b, own, head);
    BumpStep(cs, b, own, head, 0);
    ChainAt(b, links, 0);
    last := head;
    codesize[last] := codesize[last] + 1;
    assert codesize[..] == BumpedBy(cs, b, k + 1);
    while others[last] >= 0
      invariant k < |b| && last == b[k] < SYMBOLS && links[last] == Link(b, k)
      invariant codesize[..] == BumpedBy(cs, b, k + 1)
      decreases |b| - k
    {
      k := k + 1;
      BumpStep(cs, b, own, head, k);
      ChainAt(b, links, k);
      last := others[last];
      codesize[last] := codesize[last] + 1;
    }
  }

  function Merged(f: Forest, c1: nat, c2: nat, w: nat): (r: Forest)
    requires |f.own| == |f.branch| == |f.paths| == SYMBOLS && c1 < SYMBOLS && c2 < SYMBOLS
  {
    Forest(Joined(f.own, c1, c2), f.branch[c1 := f.branch[c1] + f.branch[c2]][c2 := []], Lengthened(f.paths, f.own, c1, c2, w))
  }

  lemma JoinLists(b1: seq<nat>, b2: seq<nat>, own: seq<int>, c1: nat, c2: nat)
    requires |own| == SYMBOLS && c1 != c2 && Lists(b1, own, c1) && Lists(b2, own, c2)
    ensures Lists(b1 + b2, Joined(own, c1, c2), c1)
  {
    var b, joined := b1 + b2, Joined(own, c1, c2);
    forall k | 0 <= k < |b|
      ensures b[k] < SYMBOLS && joined[b[k]] == c1
    {
      if k < |b1| { assert b[k] == b1[k]; } else { assert b[k] == b2[k - |b1|]; }
    }
    forall j, k | 0 <= j < k < |b|
      ensures b[j] != b[k]
    {
      if k < |b1| {
        assert b[j] == b1[j] && b[k] == b1[k];
      } else if j < |b1| {
        assert b[j] == b1[j] && b[k] == b2[k - |b1|];
      } else {
        assert b[j] == b2[j - |b1|] && b[k] == b2[k - |b1|];
      }
    }
    forall i | 0 <= i < SYMBOLS && joined[i] == c1
      ensures i in b
    {
      assert own[i] == c1 || own[i] == c2;
    }
  }

  lemma JoinChains(b1: seq<nat>, b2: seq<nat>, own: seq<int>, others: seq<int>, c1: nat, c2: nat)
    requires |own| == |others| == SYMBOLS && c1 != c2 && Lists(b1, own, c1) && Lists(b2, own, c2)
    requires b1 != [] && b2 != [] && b2[0] == c2 && Chain(b1, others) && Chain(b2, others)
    ensures Chain(b1 + b2, others[b1[|b1| - 1] := c2]) && Chain(b2, others[b1[|b1| - 1] := c2])
  {
    var b, last := b1 + b2, b1[|b1| - 1];
    var others1 := others[last := c2];
    forall k | 0 <= k < |b2|
      ensures b2[k] != last
    {
      assert own[b2[k]] == c2 && own[last] == c1;
    }
    ChainApart(b2, others, last, c2);
    forall k | 0 <= k < |b|
      ensures b[k] < SYMBOLS && others1[b[k]] == Link(b, k)
    {
      if k < |b1| {
        ChainAt(b1, others, k);
        assert b[k] == b1[k];
        if k + 1 < |b1| {
          assert b1[k] != last && b[k + 1] == b1[k + 1];
        }
      } else {
        ChainAt(b2, others1, k - |b1|);
        assert b[k] == b2[k - |b1|];
      }
    }
  }

  lemma ChainApart(b: seq<nat>, others: seq<int>, last: nat, x: int)
    requires |others| == SYMBOLS && last < SYMBOLS && Chain(b, others) && forall k :: 0 <= k < |b| ==> b[k] != last
    ensures Chain(b, others[last := x])
  {
  }

  lemma MergedOk(f: Forest, freq: seq<nat>, others: seq<int>, c1: nat, c2: nat)
    requires |freq| == |others| == SYMBOLS && f.Ok(freq, others)
    requires c1 < SYMBOLS && c2 < SYMBOLS && c1 != c2 && freq[c1] > 0 && freq[c2] > 0
    ensures f.branch[c1] != [] && f.branch[c1][|f.branch[c1]| - 1] < SYMBOLS
    ensures Merged(f, c1, c2, freq[c1] + freq[c2]).Ok(freq[c1 := freq[c1] + freq[c2]][c2 := 0], others[f.branch[c1][|f.branch[c1]| - 1] := c2])
  {
    var g, b1, b2 := Merged(f, c1, c2, freq[c1] + freq[c2]), f.branch[c1], f.branch[c2];
    assert BranchOk(b1, f.own, c1, freq[c1], others) && BranchOk(b2, f.own, c2, freq[c2], others);
    hide BranchOk;
    TwoBranches(b1, b2, f.own, c1, c2, freq[c1], freq[c2], others);
    var last := b1[|b1| - 1];
    var freq1, others1 := freq[c1 := freq[c1] + freq[c2]][c2 := 0], others[last := c2];
    forall c | 0 <= c < SYMBOLS
      ensures BranchOk(g.branch[c], g.own, c, freq1[c], others1)
    {
      assert BranchOk(f.branch[c], f.own, c, freq[c], others);
      if c != c1 && c != c2 {
        Beside(f.branch[c], f.own, c, freq[c], others, last, c1, c2);
      }
    }
  }

  lemma TwoBranches(b1: seq<nat>, b2: seq<nat>, own: seq<int>, c1: nat, c2: nat, n1: nat, n2: nat, others: seq<int>)
    requires |own| == |others| == SYMBOLS && c1 < SYMBOLS && c2 < SYMBOLS && c1 != c2 && n1 > 0 && n2 > 0
    requires BranchOk(b1, own, c1, n1, others) && BranchOk(b2, own, c2, n2, others)
    ensures b1 != [] && b1[|b1| - 1] < SYMBOLS && own[b1[|b1| - 1]] == c1
    ensures var others1 := others[b1[|b1| - 1] := c2];
      BranchOk(b1 + b2, Joined(own, c1, c2), c1, n1 + n2, others1) && BranchOk([], Joined(own, c1, c2), c2, 0, others1)
  {
    JoinLists(b1, b2, own, c1, c2);
    JoinChains(b1, b2, own, others, c1, c2);
  }

  // A branch that is not merged stays as it is.
  lemma Beside(b: seq<nat>, own: seq<int>, c: nat, count: nat, others: seq<int>, last: nat, c1: nat, c2: nat)
    requires |own| == |others| == SYMBOLS && BranchOk(b, own, c, count, others)
    requires last < SYMBOLS && own[last] == c1 && c != c1 && c != c2
    ensures BranchOk(b, Joined(own, c1, c2), c, count, others[last := c2])
  {
    ChainApart(b, others, last, c2);
  }

  // All of it between merges; counted are the counts at the start.
  ghost predicate Growing(counted: seq<nat>, freq: seq<nat>, cs: seq<nat>, others: seq<int>, f: Forest)
    requires |counted| == |freq| == |cs| == |others| == SYMBOLS
  {
    && f.Ok(freq, others) && Complete(freq, cs, f.own) && Heavy(freq, cs, f.own) && Sum(freq) == Sum(counted)
    && CountedOwned(counted, cs, f.own) && Tracked(counted, freq, cs, f.own, f.paths) && Thrifty(counted, freq, cs, f.own)
  }

  ghost predicate CountedOwned(counted: seq<nat>, cs: seq<nat>, own: seq<int>)
    requires |counted| == |cs| == |own| == SYMBOLS
  {
    forall i :: 0 <= i < SYMBOLS ==> if counted[i] == 0 then own[i] == -1 && cs[i] == 0 else own[i] >= 0
  }

  lemma OwnersLive(f: Forest, freq: seq<nat>, others: seq<int>, i: nat)
    requires |freq| == |others| == SYMBOLS && f.Ok(freq, others) && i < SYMBOLS && f.own[i] >= 0
    ensures f.own[i] < SYMBOLS && freq[f.own[i]] > 0
  {
    assert BranchOk(f.branch[f.own[i]], f.own, f.own[i], freq[f.own[i]], others);
    assert i in f.branch[f.own[i]];
  }

  lemma AllLive(counted: seq<nat>, freq: seq<nat>, cs: seq<nat>, others: seq<int>, f: Forest)
    requires |counted| == |freq| == |cs| == |others| == SYMBOLS && f.Ok(freq, others) && CountedOwned(counted, cs, f.own)
    ensures forall i :: 0 <= i < SYMBOLS && counted[i] > 0 ==> 0 <= f.own[i] < SYMBOLS && freq[f.own[i]] > 0
  {
    hide Forest.Ok;
    forall i | 0 <= i < SYMBOLS && counted[i] > 0
      ensures 0 <= f.own[i] < SYMBOLS && freq[f.own[i]] > 0
    {
      OwnersLive(f, freq, others, i);
    }
  }

  lemma MergeKeeps(counted: seq<nat>, freq: seq<nat>, cs: seq<nat>, others: seq<int>, f: Forest, c1: nat, c2: nat)
    requires |counted| == |freq| == |cs| == |others| == SYMBOLS && Growing(counted, freq, cs, others, f)
    requires Lightest(freq, c1, c2)
    ensures f.branch[c1] != [] && f.branch[c1][|f.branch[c1]| - 1] < SYMBOLS
    ensures Growing(counted, freq[c1 := freq[c1] + freq[c2]][c2 := 0], Bumped(Bumped(cs, f.own, c1), f.own, c2),
                    others[f.branch[c1][|f.branch[c1]| - 1] := c2], Merged(f, c1, c2, freq[c1] + freq[c2]))
  {
    hide Complete, Heavy, KraftOf, BranchOk, Forest.Ok, Tracked, Thrifty;
    AllLive(counted, freq, cs, others, f);
    TrackedKept(counted, freq, cs, f.own, f.paths, c1, c2);
    ThriftyKept(counted, freq, cs, f.own, c1, c2);
    MergedOk(f, freq, others, c1, c2);
    MergeComplete(freq, cs, f.own, c1, c2);
    MergeHeavy(freq, cs, f.own, c1, c2);
    SumUpdate(freq, c1, freq[c1] + freq[c2]);
    SumUpdate(freq[c1 := freq[c1] + freq[c2]], c2, 0);
  }

  lemma {:induction false} KraftPair(cs: seq<nat>, own: seq<int>, h: int, i: nat, j: nat, n: nat)
    requires |cs| == |own| == SYMBOLS && i < j < n <= SYMBOLS && own[i] == h && own[j] == h
    ensures KraftOf(cs, own, h, n) >= Inv(cs[i]) + Inv(cs[j])
  {
    if j < n - 1 { KraftPair(cs, own, h, i, j, n - 1); } else { KraftOne(cs, own, h, i, n - 1); }
  }

  lemma {:induction false} KraftOne(cs: seq<nat>, own: seq<int>, h: int, i: nat, n: nat)
    requires |cs| == |own| == SYMBOLS && i < n <= SYMBOLS && own[i] == h
    ensures KraftOf(cs, own, h, n) >= Inv(cs[i])
  {
    if i < n - 1 { KraftOne(cs, own, h, i, n - 1); }
  }

  // Every counted symbol has a length, the lengths make up a complete code, a long code takes a large total, the larger count does
  // not have the longer code, and no code takes fewer bits in total.
  ghost predicate Sized(counted: seq<nat>, cs: seq<nat>)
    requires |counted| == |cs| == SYMBOLS
  {
    && (forall i :: 0 <= i < SYMBOLS ==> (cs[i] > 0 <==> counted[i] > 0))
    && KraftAll(cs, SYMBOLS) == 1.0
    && (forall i :: 0 <= i < SYMBOLS && cs[i] > 0 ==> Sum(counted) >= Fib(cs[i] + 2))
    && Ordered(counted, cs) && Cheapest(counted, cs)
  }

  // Kraft sum of the symbols that have a length.
  function KraftAll(cs: seq<nat>, n: nat): real
    requires |cs| == SYMBOLS && n <= SYMBOLS
  {
    if n == 0 then 0.0 else KraftAll(cs, n - 1) + if cs[n - 1] > 0 then Inv(cs[n - 1]) else 0.0
  }

  lemma {:induction false} KraftSame(cs: seq<nat>, own: seq<int>, h: int, n: nat)
    requires |cs| == |own| == SYMBOLS && n <= SYMBOLS && forall i :: 0 <= i < SYMBOLS ==> (own[i] == h <==> cs[i] > 0)
    ensures KraftAll(cs, n) == KraftOf(cs, own, h, n)
  {
    if n > 0 { KraftSame(cs, own, h, n - 1); }
  }

  // One branch left, and at least two symbols on it.
  lemma OneBranch(counted: seq<nat>, freq: seq<nat>, cs: seq<nat>, others: seq<int>, f: Forest, h: nat, used: nat)
    requires |counted| == |freq| == |cs| == |others| == SYMBOLS && Growing(counted, freq, cs, others, f)
    requires h < SYMBOLS && freq[h] > 0 && forall c :: 0 <= c < SYMBOLS && c != h ==> freq[c] == 0
    requires used < 256 && counted[used] > 0 && counted[256] > 0
    ensures Sized(counted, cs)
  {
    hide Forest.Ok, Tracked, Ordered, Thrifty, Cheapest;
    TrackedOrdered(counted, freq, cs, f.own, f.paths);
    ThriftyCheapest(counted, freq, cs, f.own);
    SumAtLeast(freq, h);
    forall i | 0 <= i < SYMBOLS && counted[i] > 0
      ensures f.own[i] == h && cs[i] > 0 && Sum(counted) >= Fib(cs[i] + 2)
    {
      OwnersLive(f, freq, others, i);
      assert HeavyBranch(freq[h], cs, f.own, h) && HeavyPair(freq[h], cs[i], f.own[i], h);
      var j := if i == 256 then used else 256;
      OwnersLive(f, freq, others, j);
      assert f.own[j] == h;
      KraftPair(cs, f.own, h, if i < j then i else j, if i < j then j else i, SYMBOLS);
    }
    KraftSame(cs, f.own, h, SYMBOLS);
  }

  function Seeds(counted: seq<nat>): (f: Forest)
    requires |counted| == SYMBOLS
    ensures |f.own| == |f.branch| == SYMBOLS && f.paths == Alone(counted)
    ensures forall i :: 0 <= i < SYMBOLS ==> f.own[i] == if counted[i] > 0 then i else -1
    ensures forall i :: 0 <= i < SYMBOLS ==> f.branch[i] == if counted[i] > 0 then [i] else []
  {
    Forest(seq(SYMBOLS, i requires 0 <= i < SYMBOLS => if counted[i] > 0 then i else -1),
           seq(SYMBOLS, i requires 0 <= i < SYMBOLS => if counted[i] > 0 then [i] else []),
           Alone(counted))
  }

  lemma StartsGrowing(counted: seq<nat>, cs: seq<nat>, others: seq<int>)
    requires |counted| == |cs| == |others| == SYMBOLS
    requires forall i :: 0 <= i < SYMBOLS ==> cs[i] == 0 && others[i] == -1
    ensures Growing(counted, counted, cs, others, Seeds(counted))
  {
    hide Heavy, Tracked, Complete, Forest.Ok, Thrifty;
    SeedsOk(counted, others);
    SeedsHeavy(counted, cs);
    SeedsComplete(counted, cs);
    TrackedAlone(counted, cs, Seeds(counted).own);
    ThriftyAlone(counted, cs, Seeds(counted).own);
  }

  lemma SeedsOk(counted: seq<nat>, others: seq<int>)
    requires |counted| == |others| == SYMBOLS && forall i :: 0 <= i < SYMBOLS ==> others[i] == -1
    ensures Seeds(counted).Ok(counted, others)
  {
    hide Seeds;
  }

  lemma SeedsComplete(counted: seq<nat>, cs: seq<nat>)
    requires |counted| == |cs| == SYMBOLS && forall i :: 0 <= i < SYMBOLS ==> cs[i] == 0
    ensures Complete(counted, cs, Seeds(counted).own)
  {
    var f := Seeds(counted);
    hide Seeds;
    forall c | 0 <= c < SYMBOLS && counted[c] > 0
      ensures KraftOf(cs, f.own, c, SYMBOLS) == 1.0
    {
      KraftAlone(cs, f.own, c, SYMBOLS);
    }
  }

  lemma SeedsHeavy(counted: seq<nat>, cs: seq<nat>)
    requires |counted| == |cs| == SYMBOLS && forall i :: 0 <= i < SYMBOLS ==> cs[i] == 0
    ensures Heavy(counted, cs, Seeds(counted).own)
  {
    assert Fib(1) == Fib(2) == 1;
  }

  lemma {:induction false} KraftAlone(cs: seq<nat>, own: seq<int>, c: nat, n: nat)
    requires |cs| == |own| == SYMBOLS && n <= SYMBOLS && c < SYMBOLS && cs[c] == 0
    requires forall i :: 0 <= i < SYMBOLS ==> (own[i] == c <==> i == c)
    ensures KraftOf(cs, own, c, n) == if c < n then 1.0 else 0.0
  {
    if n > 0 { KraftAlone(cs, own, c, n - 1); }
  }

  // The merging loop: the two lightest branches become one until a single branch is left.
  method MergeAll(freq: array<nat>, codesize: array<nat>, others: array<int>, ghost counted: seq<nat>, ghost f0: Forest)
    returns (c1: int, ghost f: Forest)
    requires |counted| == freq.Length == codesize.Length == others.Length == SYMBOLS && freq != codesize
    requires Growing(counted, freq[..], codesize[..], others[..], f0)
    modifies freq, codesize, others
    ensures Growing(counted, freq[..], codesize[..], others[..], f)
    ensures -1 <= c1 < SYMBOLS && (c1 >= 0 ==> freq[c1] > 0)
    ensures forall i :: 0 <= i < SYMBOLS && i != c1 ==> freq[i] == 0 || freq[i] > LIMIT
  {
    hide *;
    f := f0;
    while true
      invariant Growing(counted, freq[..], codesize[..], others[..], f)
      decreases Live(freq[..])
    {
      c1 := FindSmallest(freq, -1);
      var c2 := FindSmallest(freq, c1);
      if c2 < 0 {
        return;
      }
      TwoSmallest(freq[..], c1, c2);
      f := Merge(counted, freq, codesize, others, c1, c2, f);
    }
  }

  method HuffmanSizes(freq: array<nat>, ghost used: nat) returns (codesize: array<nat>)
    requires freq.Length == SYMBOLS && freq[256] == 0 && Sum(freq[..]) <= LIMIT
    requires used < 256 && freq[used] > 0
    modifies freq
    ensures codesize.Length == SYMBOLS && fresh(codesize)
    ensures Sized(old(freq[..])[256 := 1], codesize[..])
  {
    hide Growing, Sum, Live, Seeds, Sized;
    codesize := new nat[SYMBOLS](_ => 0);
    var others := new int[SYMBOLS](_ => -1);
    ghost var counted := freq[..][256 := 1];
    SumUpdate(freq[..], 256, 1);
    freq[256] := 1;
    assert freq[..] == counted;
    StartsGrowing(counted, codesize[..], others[..]);
    ghost var f;
    var c1;
    c1, f := MergeAll(freq, codesize, others, counted, Seeds(counted));
    Ends(counted, freq[..], codesize[..], others[..], f, c1, used);
  }

  lemma Ends(counted: seq<nat>, freq: seq<nat>, cs: seq<nat>, others: seq<int>, f: Forest, c1: int, used: nat)
    requires |counted| == |freq| == |cs| == |others| == SYMBOLS && Growing(counted, freq, cs, others, f)
    requires Sum(counted) <= LIMIT + 1 && used < 256 && counted[used] > 0 && counted[256] > 0
    requires -1 <= c1 < SYMBOLS && (c1 >= 0 ==> freq[c1] > 0)
    requires forall i :: 0 <= i < SYMBOLS && i != c1 ==> freq[i] == 0 || freq[i] > LIMIT
    ensures Sized(counted, cs)
  {
    SumAtLeast(counted, 256);
    var h := LastBranch(freq, c1);
    OneBranch(counted, freq, cs, others, f, h, used);
  }

  // A count the search passes over is so large that no other can stand beside it.
  lemma LastBranch(freq: seq<nat>, c1: int) returns (h: nat)
    requires |freq| == SYMBOLS && 0 < Sum(freq) <= LIMIT + 1 && -1 <= c1 < SYMBOLS && (c1 >= 0 ==> freq[c1] > 0)
    requires forall i :: 0 <= i < SYMBOLS && i != c1 ==> freq[i] == 0 || freq[i] > LIMIT
    ensures h < SYMBOLS && freq[h] > 0 && forall c :: 0 <= c < SYMBOLS && c != h ==> freq[c] == 0
  {
    if c1 >= 0 { h := c1; } else { h := SomeLive(freq); }
    forall c | 0 <= c < SYMBOLS && c != h
      ensures freq[c] == 0
    {
      SumPair(freq, c, h);
    }
  }

  lemma {:induction false} SomeLive(freq: seq<nat>) returns (h: nat)
    requires Sum(freq) > 0
    ensures h < |freq| && freq[h] > 0
  {
    h := |freq| - 1;
    if freq[h] == 0 { h := SomeLive(freq[..h]); }
  }

  // Link the second branch to the end of the first, both one bit longer.
  method Graft(codesize: array<nat>, others: array<int>, c1: nat, c2: nat, ghost b1: seq<nat>, ghost b2: seq<nat>, ghost own: seq<int>)
    requires codesize.Length == others.Length == |own| == SYMBOLS && c1 < SYMBOLS && c2 < SYMBOLS
    requires b1 != [] && b2 != [] && b1[0] == c1 && b2[0] == c2 && b1[|b1| - 1] < SYMBOLS
    requires Lists(b1, own, c1) && Lists(b2, own, c2) && Chain(b1, others[..]) && Chain(b2, others[..][b1[|b1| - 1] := c2])
    modifies codesize, others
    ensures codesize[..] == Bumped(Bumped(old(codesize[..]), own, c1), own, c2)
    ensures others[..] == old(others[..])[b1[|b1| - 1] := c2]
  {
    hide *;
    var last := Walk(codesize, others, c1, b1, own);
    others[last] := c2;
    assert others[..] == old(others[..])[last := c2];
    last := Walk(codesize, others, c2, b2, own);
  }

  // One step of merging: counts and branches.
  method Merge(ghost counted: seq<nat>, freq: array<nat>, codesize: array<nat>, others: array<int>, c1: nat, c2: nat, ghost f: Forest)
    returns (ghost g: Forest)
    requires |counted| == freq.Length == codesize.Length == others.Length == SYMBOLS && freq != codesize
    requires Growing(counted, freq[..], codesize[..], others[..], f)
    requires Lightest(freq[..], c1, c2)
    modifies freq, codesize, others
    ensures Growing(counted, freq[..], codesize[..], others[..], g)
    ensures Live(freq[..]) < old(Live(freq[..]))
  {
    hide *;
    ghost var freq0 := freq[..];
    LightestTwo(freq0, c1, c2);
    ghost var b1, b2 := Heads(counted, freq0, codesize[..], others[..], f, c1, c2);
    MergeKeeps(counted, freq0, codesize[..], others[..], f, c1, c2);
    LiveMerged(freq0, c1, c2);
    g := Merged(f, c1, c2, freq0[c1] + freq0[c2]);
    freq[c1] := freq[c1] + freq[c2];
    freq[c2] := 0;
    assert freq[..] == freq0[c1 := freq0[c1] + freq0[c2]][c2 := 0];
    Graft(codesize, others, c1, c2, b1, b2, f.own);
  }

  lemma LiveMerged(freq: seq<nat>, c1: nat, c2: nat)
    requires c1 < |freq| && c2 < |freq| && c1 != c2 && freq[c1] > 0 && freq[c2] > 0
    ensures Live(freq[c1 := freq[c1] + freq[c2]][c2 := 0]) < Live(freq)
  {
    SumUpdate(freq, c1, freq[c1] + freq[c2]);
    SumUpdate(freq[c1 := freq[c1] + freq[c2]], c2, 0);
  }

  lemma Heads(counted: seq<nat>, freq: seq<nat>, cs: seq<nat>, others: seq<int>, f: Forest, c1: nat, c2: nat)
    returns (b1: seq<nat>, b2: seq<nat>)
    requires |counted| == |freq| == |cs| == |others| == SYMBOLS && Growing(counted, freq, cs, others, f)
    requires c1 < SYMBOLS && c2 < SYMBOLS && c1 != c2 && freq[c1] > 0 && freq[c2] > 0
    ensures |f.own| == |f.branch| == |f.paths| == SYMBOLS && b1 == f.branch[c1] && b2 == f.branch[c2]
    ensures b1 != [] && b2 != [] && b1[0] == c1 && b2[0] == c2 && b1[|b1| - 1] < SYMBOLS
    ensures Lists(b1, f.own, c1) && Lists(b2, f.own, c2) && Chain(b1, others) && Chain(b2, others[b1[|b1| - 1] := c2])
  {
    b1, b2 := f.branch[c1], f.branch[c2];
    assert BranchOk(b1, f.own, c1, freq[c1], others) && BranchOk(b2, f.own, c2, freq[c2], others);
    JoinChains(b1, b2, f.own, others, c1, c2);
  }
}
