// What a Huffman decoder does to the coefficients, as a list of writes, and why doing part of the list twice does no harm.
module HuffWrites {
  import opened Numbers
  import opened ArithModel
  import opened Scans

  // A value is stored, or the refinement bit is added to what is there.
  datatype Write = Put(at: nat, value: int) | Mend(at: nat)

  // How the bit is added: to a DC coefficient by |=, to the magnitude of an AC coefficient unless it is there.
  datatype Mender = SetsBit(al: nat) | Corrects(al: nat)

  // p1 or m1 is added unless the bit is there.
  function BitAdded(c: int, al: nat): int {
    if c / Pow2(al) % 2 == 0 then ToShort(if c >= 0 then c + Pow2(al) else c - Pow2(al)) else c
  }

  function Mended(m: Mender, c: int): int {
    match m
    case SetsBit(al) => SetBit(c, al)
    case Corrects(al) => BitAdded(c, al)
  }

  function DoneTo(m: Mender, c: int, w: Write): int {
    match w
    case Put(_, v) => v
    case Mend(_) => Mended(m, c)
  }

  function Do(m: Mender, area: seq<int>, w: Write): (r: seq<int>)
    ensures |r| == |area|
  {
    if w.at < |area| then area[w.at := DoneTo(m, area[w.at], w)] else area
  }

  function DoAll(m: Mender, area: seq<int>, ws: seq<Write>): (r: seq<int>)
    ensures |r| == |area|
  {
    if ws == [] then area else Do(m, DoAll(m, area, ws[..|ws| - 1]), ws[|ws| - 1])
  }

  // The same as seen by the coefficient j, which is c before.
  function SeenAt(m: Mender, c: int, j: nat, ws: seq<Write>): int {
    if ws == [] then c
    else
      var before, w := SeenAt(m, c, j, ws[..|ws| - 1]), ws[|ws| - 1];
      if w.at == j then DoneTo(m, before, w) else before
  }

  lemma {:induction false} DoAllAt(m: Mender, area: seq<int>, ws: seq<Write>, j: nat)
    requires j < |area|
    ensures DoAll(m, area, ws)[j] == SeenAt(m, area[j], j, ws)
  {
    hide DoneTo;
    if ws != [] { DoAllAt(m, area, ws[..|ws| - 1], j); }
  }

  lemma {:induction false} DoAllConcat(m: Mender, area: seq<int>, a: seq<Write>, b: seq<Write>)
    ensures DoAll(m, area, a + b) == DoAll(m, DoAll(m, area, a), b)
  {
    hide DoneTo;
    if b == [] {
      assert a + b == a;
    } else {
      assert (a + b)[..|a + b| - 1] == a + b[..|b| - 1];
      DoAllConcat(m, area, a, b[..|b| - 1]);
    }
  }

  // The writes have been made.
  ghost predicate Wrote(m: Mender, area0: seq<int>, area: seq<int>, ws: seq<Write>) { area == DoAll(m, area0, ws) }

  lemma WroteNothing(m: Mender, area: seq<int>)
    ensures Wrote(m, area, area, [])
  {
  }

  lemma WroteOne(m: Mender, area: seq<int>, w: Write)
    requires w.at < |area|
    ensures Wrote(m, area, area[w.at := DoneTo(m, area[w.at], w)], [w])
  {
    assert [w][..0] == [];
  }

  lemma WroteMore(m: Mender, area0: seq<int>, mid: seq<int>, area: seq<int>, a: seq<Write>, b: seq<Write>)
    requires Wrote(m, area0, mid, a) && Wrote(m, mid, area, b)
    ensures Wrote(m, area0, area, a + b)
  {
    DoAllConcat(m, area0, a, b);
  }

  // ----- a second time -----

  lemma MendTwice(m: Mender, c: int)
    requires m.al <= 13
    ensures Mended(m, Mended(m, c)) == Mended(m, c)
    ensures c != 0 ==> Mended(m, c) != 0
  {
    Pow2Plus(m.al, 15 - m.al);
    Pow2Fifteen();
    var p := Pow2(m.al);
    hide Pow2, ToShort;
    assert 0 / p == 0;
    if c / p % 2 == 0 {
      NewBit(c, p, Pow2(15 - m.al));
    }
  }

  // Adding p to the magnitude of a number that lacks the bit sets the bit.
  lemma NewBit(c: int, p: nat, q: nat)
    requires p >= 1 && p * q == 0x8000 && c / p % 2 == 0
    ensures ToShort(c + p) / p % 2 == 1 && ToShort(c - p) / p % 2 == 1
  {
    hide ToShort;
    OneOff(c, 1, p);
    OneOff(c, -1, p);
    ShortKeepsBit(c + p, p, q);
    ShortKeepsBit(c - p, p, q);
    OddNext(c / p);
  }

  lemma OddNext(x: int)
    requires x % 2 == 0
    ensures (x + 1) % 2 == 1 && (x - 1) % 2 == 1
  {
  }

  // The cast to short keeps the low bits.
  lemma ShortKeepsBit(x: int, p: nat, q: nat)
    requires p >= 1 && p * q == 0x8000
    ensures ToShort(x) / p % 2 == x / p % 2
  {
    var k := (x + 0x8000) / 0x10000;
    ShortIs(x, k);
    Rearranged(p, q, k);
    hide ToShort;
    Lowered(x, 2 * (q * k), p);
    EvenOff(x / p, q * k);
  }

  lemma ShortIs(x: int, k: int)
    requires k == (x + 0x8000) / 0x10000
    ensures ToShort(x) == x - 0x10000 * k
  {
  }

  lemma Pow2Fifteen()
    ensures Pow2(15) == 0x8000
  {
    assert Pow2(8) == 0x100;
    Pow2Plus(8, 7);
  }

  lemma Rearranged(p: nat, q: nat, k: int)
    requires p * q == 0x8000
    ensures 0x10000 * k == 2 * (q * k) * p
  {
    assert 2 * (q * k) * p == 2 * (p * q) * k;
  }

  lemma OneOff(c: int, d: int, p: nat)
    requires p >= 1 && -1 <= d <= 1
    ensures (c + d * p) / p == c / p + d
  {
    Lowered(c + d * p, d, p);
  }

  lemma Lowered(x: int, m: int, p: nat)
    requires p >= 1
    ensures (x - m * p) / p == x / p - m
  {
    var q, r := x / p, x % p;
    assert x == q * p + r;
    assert x - m * p == (q - m) * p + r by { MulDistInt(q, m, p); }
    QuotientInt(x - m * p, q - m, p, r);
  }

  lemma MulDistInt(a: int, b: int, p: int)
    ensures (a - b) * p == a * p - b * p
  {
  }

  lemma QuotientInt(x: int, a: int, d: nat, r: nat)
    requires d >= 1 && r < d && x == a * d + r
    ensures x / d == a
  {
    var q := x / d;
    assert x == q * d + x % d;
    MulDistInt(a, q, d);
    if q < a {
      MulLe(1, a - q, d);
    } else if q > a {
      MulLe(1, q - a, d);
      MulDistInt(q, a, d);
    }
  }

  lemma EvenOff(a: int, b: int)
    ensures (a - 2 * b) % 2 == a % 2
  {
  }

  // Once a value has been stored, what was there before does not show.
  ghost predicate Stored(ws: seq<Write>, j: nat) { exists i :: 0 <= i < |ws| && ws[i].Put? && ws[i].at == j }

  lemma {:induction false} StoredHides(m: Mender, c: int, d: int, j: nat, ws: seq<Write>)
    ensures Stored(ws, j) ==> SeenAt(m, c, j, ws) == SeenAt(m, d, j, ws)
  {
    hide Mended;
    if ws != [] {
      var init, w := ws[..|ws| - 1], ws[|ws| - 1];
      StoredHides(m, c, d, j, init);
      if Stored(ws, j) && !(w.Put? && w.at == j) {
        var i :| 0 <= i < |ws| && ws[i].Put? && ws[i].at == j;
        assert init[i] == ws[i];
      }
    }
  }

  // Up to then the bit has been added, or nothing been done.
  lemma {:induction false} JustMended(m: Mender, c: int, j: nat, ws: seq<Write>)
    requires m.al <= 13 && !Stored(ws, j)
    ensures SeenAt(m, c, j, ws) == (if Mend(j) in ws then Mended(m, c) else c)
  {
    if ws != [] {
      var init, w := ws[..|ws| - 1], ws[|ws| - 1];
      assert ws == init + [w];
      forall i | 0 <= i < |init|
        ensures !(init[i].Put? && init[i].at == j)
      {
        assert init[i] == ws[i];
      }
      JustMended(m, c, j, init);
      MendTwice(m, c);
    }
  }

  lemma SeenTwice(m: Mender, c: int, j: nat, ws: seq<Write>)
    requires m.al <= 13
    ensures SeenAt(m, SeenAt(m, c, j, ws), j, ws) == SeenAt(m, c, j, ws)
  {
    var d := SeenAt(m, c, j, ws);
    if Stored(ws, j) {
      StoredHides(m, c, d, j, ws);
    } else {
      JustMended(m, c, j, ws);
      JustMended(m, d, j, ws);
      MendTwice(m, c);
    }
  }

  lemma {:induction false} SeenConcat(m: Mender, c: int, j: nat, a: seq<Write>, b: seq<Write>)
    ensures SeenAt(m, c, j, a + b) == SeenAt(m, SeenAt(m, c, j, a), j, b)
  {
    hide DoneTo;
    if b == [] {
      assert a + b == a;
    } else {
      assert (a + b)[..|a + b| - 1] == a + b[..|b| - 1];
      SeenConcat(m, c, j, a, b[..|b| - 1]);
    }
  }

  // Every coefficient is either as it was or as it will be.
  ghost predicate Between(area: seq<int>, now: seq<int>, final: seq<int>) {
    |area| == |now| == |final| && forall j :: 0 <= j < |now| ==> now[j] == area[j] || now[j] == final[j]
  }

  // However much of a part of the list was done before, doing the whole list comes to the same.
  lemma DoAgain(m: Mender, area: seq<int>, now: seq<int>, part: seq<Write>, ws: seq<Write>)
    requires m.al <= 13 && part <= ws && Between(area, now, DoAll(m, area, part))
    ensures DoAll(m, now, ws) == DoAll(m, area, ws)
  {
    hide DoAll, SeenAt;
    var rest := ws[|part|..];
    assert part + rest == ws;
    forall j | 0 <= j < |area|
      ensures DoAll(m, now, ws)[j] == DoAll(m, area, ws)[j]
    {
      DoAllAt(m, area, part, j);
      DoAllAt(m, area, ws, j);
      DoAllAt(m, now, ws, j);
      SeenConcat(m, area[j], j, part, rest);
      SeenConcat(m, now[j], j, part, rest);
      SeenTwice(m, area[j], j, part);
    }
  }

  // ----- taking new coefficients back -----

  // Values are stored where there were zeros, and bits added elsewhere.
  ghost predicate Fitting(area: seq<int>, ws: seq<Write>) {
    forall i :: 0 <= i < |ws| ==> ws[i].at < |area| && (ws[i].Put? <==> area[ws[i].at] == 0)
  }

  lemma FittingConcat(area: seq<int>, a: seq<Write>, b: seq<Write>)
    ensures Fitting(area, a + b) <==> Fitting(area, a) && Fitting(area, b)
  {
    if Fitting(area, a + b) {
      forall i | 0 <= i < |a|
        ensures a[i].at < |area| && (a[i].Put? <==> area[a[i].at] == 0)
      {
        assert (a + b)[i] == a[i];
      }
      forall i | 0 <= i < |b|
        ensures b[i].at < |area| && (b[i].Put? <==> area[b[i].at] == 0)
      {
        assert (a + b)[|a| + i] == b[i];
      }
    }
  }

  // Where values are stored, from the start of the block on.
  function Puts(ws: seq<Write>, at: nat): seq<int> {
    if ws == [] then [] else Puts(ws[..|ws| - 1], at) + OnePut(ws[|ws| - 1], at)
  }

  function OnePut(w: Write, at: nat): seq<int> { if w.Put? then [w.at - at] else [] }

  lemma {:induction false} PutsConcat(a: seq<Write>, b: seq<Write>, at: nat)
    ensures Puts(a + b, at) == Puts(a, at) + Puts(b, at)
  {
    if b == [] {
      assert a + b == a;
    } else {
      assert (a + b)[..|a + b| - 1] == a + b[..|b| - 1];
      PutsConcat(a, b[..|b| - 1], at);
    }
  }

  lemma PutsOne(w: Write, at: nat)
    ensures Puts([w], at) == OnePut(w, at)
  {
    assert [w][..0] == [];
  }

  lemma {:induction false} InPuts(ws: seq<Write>, at: nat, j: nat)
    ensures j - at in Puts(ws, at) <==> Stored(ws, j)
  {
    if ws != [] {
      var init, w := ws[..|ws| - 1], ws[|ws| - 1];
      InPuts(init, at, j);
      if Stored(ws, j) && !(w.Put? && w.at == j) {
        var i :| 0 <= i < |ws| && ws[i].Put? && ws[i].at == j;
        assert init[i] == ws[i];
      }
    }
  }

  lemma {:induction false} Unseen(m: Mender, c: int, j: nat, ws: seq<Write>)
    requires forall i :: 0 <= i < |ws| ==> ws[i].at != j
    ensures SeenAt(m, c, j, ws) == c
  {
    if ws != [] { Unseen(m, c, j, ws[..|ws| - 1]); }
  }

  // Zeros are zeros again, and other coefficients as they have become.
  function Kept(area0: seq<int>, area: seq<int>): (r: seq<int>)
    requires |area0| == |area|
    ensures |r| == |area|
  {
    seq(|area|, j requires 0 <= j < |area| => if area0[j] == 0 then 0 else area[j])
  }

  // Setting the stored coefficients to zero leaves just what was nonzero before.
  lemma TakenBack(m: Mender, area0: seq<int>, area: seq<int>, ws: seq<Write>, at: nat, j: nat)
    requires Wrote(m, area0, area, ws) && Fitting(area0, ws) && j < |area0|
    ensures |area| == |area0| && Kept(area0, area)[j] == if j - at in Puts(ws, at) then 0 else area[j]
  {
    hide DoAll, SeenAt;
    InPuts(ws, at, j);
    DoAllAt(m, area0, ws, j);
    if area0[j] == 0 && !Stored(ws, j) { Unseen(m, area0[j], j, ws); }
  }

  // An attempt that was abandoned has only added bits where there was something.
  ghost predicate Abandoned(m: Mender, area0: seq<int>, area: seq<int>, ws: seq<Write>) {
    Fitting(area0, ws) && area == Kept(area0, DoAll(m, area0, ws))
  }

  lemma AbandonedAt(m: Mender, area0: seq<int>, area: seq<int>, ws: seq<Write>, j: nat)
    requires m.al <= 13 && Abandoned(m, area0, area, ws) && j < |area0|
    ensures |area| == |area0| && (area[j] == 0 <==> area0[j] == 0)
    ensures area[j] == area0[j] || area[j] == DoAll(m, area0, ws)[j]
  {
    hide DoAll, SeenAt;
    DoAllAt(m, area0, ws, j);
    if area0[j] != 0 {
      JustMended(m, area0[j], j, ws);
      MendTwice(m, area0[j]);
    }
  }

  // ----- suspension -----

  // A routine with all bytes there: how far it comes, and what it writes.
  datatype Outcome<T> = Stuck(ws: seq<Write>) | Done(value: T, ws: seq<Write>)

  // A routine that goes on as long as bytes arrive does what it would do with all of them there, or the beginning of that.
  ghost predicate Follows<T>(ok: bool, all: bool, f: Outcome<T>, v: T, ws: seq<Write>) {
    if ok then f == Done(v, ws) else ws <= f.ws && (all ==> f == Stuck(ws))
  }
}
