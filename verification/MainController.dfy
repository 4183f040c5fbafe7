// process_data_context_main and its caller: whatever the source and the output do, every row group is seen once, in order.
module MainController {
  import opened Geometry
  import opened PointerLists
  import opened ContextViews
  import opened ContextMain

  datatype ContextState = PrepareForImcu | ProcessImcu | PostponedRow

  // The postprocessor: what it has seen; for each coming call how many row groups there is output for, and whether they
  // fill it. At last there is output for everything.
  class Post {
    var log: seq<seq<seq<Row>>>
    var takes: seq<(nat, bool)>

    constructor (takes: seq<(nat, bool)>)
      ensures log == [] && this.takes == takes
    {
      log, this.takes := [], takes;
    }
  }

  // What is seen of row group g of list b, in every component.
  function Windows(strips: seq<Strip>, b: nat, g: nat): (w: seq<seq<Row>>)
    requires forall c :: 0 <= c < |strips| ==> InList(strips[c], g)
    ensures |w| == |strips| && forall c :: 0 <= c < |w| ==> InList(strips[c], g) && w[c] == strips[c].Window(b, g)
  {
    seq(|strips|, c requires 0 <= c < |strips| && InList(strips[c], g) => strips[c].Window(b, g))
  }

  ghost predicate InList(s: Strip, g: nat) { s.Valid() && Times(g, s.r) + 3 * s.r <= s.t + 4 * s.r }

  ghost predicate GoodStrips(strips: seq<Strip>, img: seq<Comp>) {
    |strips| == |img| && forall c :: 0 <= c < |img| ==> strips[c].Valid() && strips[c].r == img[c].r && strips[c].t == img[c].t
  }

  // iMCU row k is in the workspace of every component, seen through list b.
  ghost predicate AllHeld(strips: seq<Strip>, img: seq<Comp>, b: nat, k: nat)
    requires GoodStrips(strips, img)
  {
    forall c :: 0 <= c < |img| ==> HeldIn(strips[c], img[c], b, k)
  }

  ghost predicate HeldIn(s: Strip, c: Comp, b: nat, k: nat) {
    s.Valid() && s.t == c.t && Times(k, c.t) + c.t <= |c.rows| && s.Held(b, c.rows, Times(k, c.t))
  }

  ghost predicate AllNormal(strips: seq<Strip>) { forall c :: 0 <= c < |strips| ==> strips[c].Valid() && strips[c].Normal() }

  ghost predicate AllAtTop(strips: seq<Strip>) { forall c :: 0 <= c < |strips| ==> strips[c].Valid() && strips[c].AtTop() }

  // The pointers with which iMCU row k is read.
  ghost predicate Pointed(strips: seq<Strip>, k: nat) { if k == 0 then AllAtTop(strips) else AllNormal(strips) }

  // The pointers with which it is processed.
  ghost predicate PointedAt(s: Strip, c: Comp, b: nat, k: nat, total: nat)
    requires total >= 1
  {
    && s.Valid() && b < 2 && s.Above(b, Times(k, c.t))
    && if k == total - 1 then
         var left := c.height - Times(k, c.t); 1 <= left <= s.t && Bottomed(s.List(b), b, s.t, s.r, left)
       else Core(s.List(b), b, s.t, s.r, s.t + 2 * s.r) && (k == 0 ==> s.AtTop()) && (k > 0 ==> s.Normal())
  }

  ghost predicate AllPointedAt(strips: seq<Strip>, img: seq<Comp>, b: nat, k: nat, total: nat)
    requires total >= 1 && |strips| == |img|
  {
    forall c :: 0 <= c < |img| ==> PointedAt(strips[c], img[c], b, k, total)
  }

  // Everything so far has been seen as it should be.
  ghost predicate Seen(log: seq<seq<seq<Row>>>, img: seq<Comp>, m: nat, total: nat, avail: nat)
    requires GoodImage(img, m, total, avail)
  {
    forall j :: 0 <= j < |log| ==> log[j] == Expected(img, m, total, avail, j)
  }

  // ----- what is seen of one row group -----

  lemma ViewOf(s: Strip, c: Comp, b: nat, k: nat, g: nat, m: nat, total: nat, avail: nat)
    requires GoodComp(c, m, total, avail) && s.Valid() && s.r == c.r && s.t == c.t && k < total && HeldIn(s, c, b, k) && PointedAt(s, c, b, k, total)
    requires g < if k == total - 1 then avail else m - 1
    ensures InList(s, g) && s.Window(b, g) == ExpectedOf(c, m, total, avail, Times(k, m) + g)
  {
    hide Strip.Held, Strip.Above, Strip.Window, Bottomed, Core, Strip.AtTop, Strip.Normal;
    hide Times;
    Distribute(Times(k, m), g, c.r);
    Regroup(k, m, c.r);
    RowsReal(c, m, total, avail);
    PlaceInImage(k, g, m, total, avail);
    if k == total - 1 {
      TimesMono(g, avail - 1, c.r);
      ViewBottom(s, b, c.rows, Times(k, c.t), g, c.height - Times(k, c.t));
    } else {
      TimesNext(k, c.t);
      TimesMono(k + 1, total - 1, c.t);
      TimesMono(g + 2, m, c.r);
      TimesNext(g, c.r);
      TimesNext(g + 1, c.r);
      ViewMiddle(s, b, c.rows, Times(k, c.t), g, c.height - 1);
    }
  }

  lemma Distribute(a: nat, b: nat, r: nat)
    ensures Times(a + b, r) == Times(a, r) + Times(b, r)
  {
  }

  // Only a postponed row group is just before the last iMCU row.
  lemma PlaceInImage(k: nat, g: nat, m: nat, total: nat, avail: nat)
    requires k < total && 1 <= avail <= m && 2 <= m && g < if k == total - 1 then avail else m - 1
    ensures Times(k, m) + g + 1 != Times(total - 1, m)
  {
    if k < total - 1 {
      TimesNext(k, m);
      TimesMono(k + 1, total - 1, m);
    }
  }

  lemma ViewOfPostponed(s: Strip, c: Comp, b: nat, k: nat, m: nat, total: nat, avail: nat)
    requires GoodComp(c, m, total, avail) && s.Valid() && s.r == c.r && s.t == c.t && 1 <= k < total && b < 2 && HeldIn(s, c, b, k) && s.Normal()
    ensures InList(s, m + 1) && Times(k, m) >= 1 && s.Window(b, m + 1) == ExpectedOf(c, m, total, avail, Times(k, m) - 1)
  {
    hide Strip.Held, Strip.Window, WrappedAbove, WrappedBelow, Core, Times;
    RowsReal(c, m, total, avail);
    TimesMono(1, k, m);
    TimesMono(1, k, c.t);
    TimesOne(m);
    TimesOne(c.t);
    Regroup(k, m, c.r);
    TimesNext(Times(k, m) - 1, c.r);
    TimesNext(k, c.t);
    TimesMono(k + 1, total, c.t);
    if k < total - 1 {
      TimesMono(k + 1, total - 1, c.t);
      TimesNext(k, m);
      TimesMono(k + 1, total - 1, m);
    }
    ViewPostponed(s, b, c.rows, Times(k, c.t), m, LastSeen(c, m, total, Times(k, m) - 1));
  }

  lemma WindowsOf(strips: seq<Strip>, img: seq<Comp>, b: nat, k: nat, g: nat, m: nat, total: nat, avail: nat)
    requires GoodImage(img, m, total, avail) && GoodStrips(strips, img) && k < total && AllHeld(strips, img, b, k)
    requires total >= 1 && AllPointedAt(strips, img, b, k, total) && g < if k == total - 1 then avail else m - 1
    ensures forall c :: 0 <= c < |strips| ==> InList(strips[c], g)
    ensures Windows(strips, b, g) == Expected(img, m, total, avail, Times(k, m) + g)
  {
    hide HeldIn, PointedAt, GoodComp, Strip.Valid, ExpectedOf, Strip.Window;
    forall c | 0 <= c < |strips|
      ensures InList(strips[c], g) && strips[c].Window(b, g) == ExpectedOf(img[c], m, total, avail, Times(k, m) + g)
    {
      ViewOf(strips[c], img[c], b, k, g, m, total, avail);
    }
  }

  lemma WindowsPostponed(strips: seq<Strip>, img: seq<Comp>, b: nat, k: nat, m: nat, total: nat, avail: nat)
    requires GoodImage(img, m, total, avail) && GoodStrips(strips, img) && 1 <= k < total && b < 2 && AllHeld(strips, img, b, k) && AllNormal(strips)
    ensures forall c :: 0 <= c < |strips| ==> InList(strips[c], m + 1)
    ensures Times(k, m) >= 1 && Windows(strips, b, m + 1) == Expected(img, m, total, avail, Times(k, m) - 1)
  {
    hide HeldIn, GoodComp, Strip.Valid, ExpectedOf, Strip.Window, Strip.Normal;
    forall c | 0 <= c < |strips|
      ensures InList(strips[c], m + 1) && Times(k, m) >= 1 && strips[c].Window(b, m + 1) == ExpectedOf(img[c], m, total, avail, Times(k, m) - 1)
    {
      ViewOfPostponed(strips[c], img[c], b, k, m, total, avail);
    }
    assert InList(strips[0], m + 1);
  }

  lemma ViewsAhead(strips: seq<Strip>, img: seq<Comp>, b: nat, k: nat, ctr: nat, n: nat, m: nat, total: nat, avail: nat)
    requires GoodImage(img, m, total, avail) && GoodStrips(strips, img) && k < total && AllHeld(strips, img, b, k)
    requires total >= 1 && AllPointedAt(strips, img, b, k, total) && n <= if k == total - 1 then avail else m - 1
    ensures forall g, c :: ctr <= g < n && 0 <= c < |strips| ==> InList(strips[c], g)
    ensures forall g :: ctr <= g < n ==> Windows(strips, b, g) == Expected(img, m, total, avail, Times(k, m) + ctr + (g - ctr))
  {
    hide GoodImage, GoodStrips, AllHeld, AllPointedAt, InList, Times;
    forall g, c | ctr <= g < n && 0 <= c < |strips|
      ensures InList(strips[c], g)
    {
      WindowsOf(strips, img, b, k, g, m, total, avail);
    }
    forall g | ctr <= g < n
      ensures Windows(strips, b, g) == Expected(img, m, total, avail, Times(k, m) + ctr + (g - ctr))
    {
      WindowsOf(strips, img, b, k, g, m, total, avail);
    }
  }

  // ----- the steps, component by component -----

  method MakeFunnyPointers(strips: seq<Strip>, ghost img: seq<Comp>) returns (r: seq<Strip>)
    requires GoodStrips(strips, img)
    ensures GoodStrips(r, img) && AllAtTop(r)
  {
    hide Core, Topped, GoodList;
    r := strips;
    var ci := 0;
    while ci < |strips|
      invariant 0 <= ci <= |strips| && GoodStrips(r, img) && forall c :: 0 <= c < ci ==> r[c].Valid() && r[c].AtTop()
    {
      var s := r[ci];
      var x0 := CopyInOrder(s.x0, s.t, s.r);
      var x1 := CopyInOrder(s.x1, s.t, s.r);
      x1 := SwapLast(x1, s.t, s.r);
      x0 := RepeatFirst(x0, s.t, s.r);
      r := r[ci := s.(x0 := x0, x1 := x1)];
      ci := ci + 1;
    }
  }

  method SetWraparoundPointers(strips: seq<Strip>, ghost img: seq<Comp>, ghost b: nat, ghost k: nat) returns (r: seq<Strip>)
    requires GoodStrips(strips, img)
    ensures GoodStrips(r, img)
    ensures AllAtTop(strips) && AllHeld(strips, img, b, k) ==> AllNormal(r) && AllHeld(r, img, b, k)
  {
    hide Core, Topped, GoodList, WrappedAbove, WrappedBelow, Strip.Held;
    r := strips;
    var ci := 0;
    while ci < |strips|
      invariant 0 <= ci <= |strips| && GoodStrips(r, img)
      invariant forall c :: ci <= c < |strips| ==> r[c] == strips[c]
      invariant AllAtTop(strips) ==> forall c :: 0 <= c < ci ==> r[c].Valid() && r[c].Normal()
      invariant AllHeld(strips, img, b, k) ==> AllHeld(r, img, b, k)
    {
      var s := r[ci];
      var x0 := Wrap(s.x0, s.t, s.r, 0);
      var x1 := Wrap(s.x1, s.t, s.r, 1);
      if AllHeld(strips, img, b, k) { assert HeldIn(r[ci], img[ci], b, k); SameHeld(s, s.(x0 := x0, x1 := x1), img[ci], b, k); }
      r := r[ci := s.(x0 := x0, x1 := x1)];
      ci := ci + 1;
    }
  }

  lemma SameHeld(s: Strip, s': Strip, c: Comp, b: nat, k: nat)
    requires HeldIn(s, c, b, k) && s'.Valid() && s'.buffer == s.buffer && s'.t == s.t && s'.r == s.r
    ensures HeldIn(s', c, b, k)
  {
  }

  // What set_bottom_pointers finds: how many rows are left, and how many row groups they are.
  lemma RowsLeft(c: Comp, m: nat, total: nat, avail: nat)
    requires GoodComp(c, m, total, avail)
    ensures c.t >= 1 && c.r >= 1
    ensures var left := if c.height % c.t == 0 then c.t else c.height % c.t;
      left == c.height - Times(total - 1, c.t) && 1 <= left <= c.t && (left - 1) / c.r + 1 == avail
  {
    LastIsRest(c.height, c.t, total);
    var left := c.height - Times(total - 1, c.t);
    TimesNext(avail - 1, c.r);
    QuotientIs(left - 1, c.r, avail - 1);
  }

  method SetBottomPointers(strips: seq<Strip>, img: seq<Comp>, which: nat, m: nat, total: nat, ghost avail: nat)
    returns (r: seq<Strip>, rowgroupsAvail: nat)
    requires GoodImage(img, m, total, avail) && GoodStrips(strips, img) && which < 2
    ensures GoodStrips(r, img) && rowgroupsAvail == avail && total >= 1
    ensures Pointed(strips, total - 1) && which == (total - 1) % 2 ==> AllPointedAt(r, img, which, total - 1, total)
    ensures AllHeld(strips, img, which, total - 1) ==> AllHeld(r, img, which, total - 1)
  {
    hide Core, Topped, GoodList, WrappedAbove, WrappedBelow, Strip.Held, Times, GoodComp;
    r, rowgroupsAvail := strips, 0;
    TotalPositive(img, m, total, avail);
    var ci := 0;
    while ci < |strips|
      invariant 0 <= ci <= |strips| && GoodStrips(r, img) && (ci > 0 ==> rowgroupsAvail == avail)
      invariant forall c :: ci <= c < |strips| ==> r[c] == strips[c]
      invariant Pointed(strips, total - 1) && which == (total - 1) % 2 ==> forall c :: 0 <= c < ci ==> PointedAt(r[c], img[c], which, total - 1, total)
      invariant AllHeld(strips, img, which, total - 1) ==> AllHeld(r, img, which, total - 1)
    {
      var s, c := r[ci], img[ci];
      RowsLeft(c, m, total, avail);
      var left := if c.height % c.t == 0 then c.t else c.height % c.t;
      if ci == 0 {
        rowgroupsAvail := (left - 1) / c.r + 1;
      }
      var x := RepeatLast(s.List(which), s.t, s.r, left, which);
      var s' := if which == 0 then s.(x0 := x) else s.(x1 := x);
      if AllHeld(strips, img, which, total - 1) { assert HeldIn(r[ci], c, which, total - 1); SameHeld(s, s', c, which, total - 1); }
      if Pointed(strips, total - 1) && which == (total - 1) % 2 { BottomPointed(s, s', c, which, left, m, total, avail); }
      r := r[ci := s'];
      ci := ci + 1;
    }
  }

  lemma TotalPositive(img: seq<Comp>, m: nat, total: nat, avail: nat)
    requires GoodImage(img, m, total, avail)
    ensures total >= 1 && m >= 2 && 1 <= avail <= m
  {
    assert GoodComp(img[0], m, total, avail);
  }

  lemma BottomPointed(s: Strip, s': Strip, c: Comp, b: nat, left: nat, m: nat, total: nat, avail: nat)
    requires GoodComp(c, m, total, avail) && s.Valid() && s'.Valid() && s.t == s'.t == c.t && s.r == s'.r == c.r && b == (total - 1) % 2
    requires if total == 1 then s.AtTop() else s.Normal()
    requires 1 <= left <= c.t && left == c.height - Times(total - 1, c.t)
    requires s'.List(b)[..s.r] == s.List(b)[..s.r] && (Core(s.List(b), b, s.t, s.r, s.t + 2 * s.r) ==> Bottomed(s'.List(b), b, s.t, s.r, left))
    ensures PointedAt(s', c, b, total - 1, total)
  {
    if total == 1 {
      TimesNone(c.t);
    } else {
      TimesMono(1, total - 1, c.t);
      TimesOne(c.t);
    }
    hide Times, Core, Bottomed, GoodComp;
    forall i | 0 <= i < s.r
      ensures s'.List(b)[i] == s.List(b)[i]
    {
      assert s'.List(b)[i] == s'.List(b)[..s.r][i] && s.List(b)[i] == s.List(b)[..s.r][i];
    }
    TwoRowGroups(c, m, total, avail);
  }

  lemma TwoRowGroups(c: Comp, m: nat, total: nat, avail: nat)
    requires GoodComp(c, m, total, avail)
    ensures c.t >= 2 * c.r
  {
    RowGroupFits(m, c.r);
  }

  // decompress_data: the rows of iMCU row k go where the list says.
  method LoadRows(strips: seq<Strip>, img: seq<Comp>, which: nat, k: nat, ghost m: nat, ghost total: nat, ghost avail: nat)
    returns (r: seq<Strip>)
    requires GoodImage(img, m, total, avail) && GoodStrips(strips, img) && which < 2 && k < total
    ensures GoodStrips(r, img) && (Pointed(strips, k) ==> Pointed(r, k))
    ensures Pointed(strips, k) && (k > 0 ==> AllHeld(strips, img, 1 - which, k - 1)) ==> AllHeld(r, img, which, k)
  {
    hide Core, Topped, GoodList, WrappedAbove, WrappedBelow, Strip.Held, Times, GoodComp;
    ghost var sync := Pointed(strips, k) && (k > 0 ==> AllHeld(strips, img, 1 - which, k - 1));
    r := strips;
    var ci := 0;
    while ci < |strips|
      invariant 0 <= ci <= |strips| && GoodStrips(r, img) && forall c :: ci <= c < |strips| ==> r[c] == strips[c]
      invariant forall c :: 0 <= c < ci ==> r[c].x0 == strips[c].x0 && r[c].x1 == strips[c].x1
      invariant sync ==> forall c :: 0 <= c < ci ==> HeldIn(r[c], img[c], which, k)
    {
      var s, c := r[ci], img[ci];
      RowsThere(c, m, total, avail, k);
      var base := Times(k, c.t);
      var buffer := Scatter(s.buffer, s.List(which), s.t, s.r, c.rows[base..base + c.t], which);
      if sync {
        if k > 0 { assert HeldIn(r[ci], c, 1 - which, k - 1); }
        NowHeld(s, buffer, c, which, k, m, total, avail);
      }
      r := r[ci := s.(buffer := buffer)];
      ci := ci + 1;
    }
  }

  lemma RowsThere(c: Comp, m: nat, total: nat, avail: nat, k: nat)
    requires GoodComp(c, m, total, avail) && k < total
    ensures Times(k, c.t) + c.t <= |c.rows|
  {
    TimesNext(k, c.t);
    TimesMono(k + 1, total, c.t);
  }

  lemma NowHeld(s: Strip, buffer: seq<Row>, c: Comp, b: nat, k: nat, m: nat, total: nat, avail: nat)
    requires GoodComp(c, m, total, avail) && s.Valid() && s.t == c.t && s.r == c.r && b < 2 && k < total && |buffer| == |s.buffer|
    requires Times(k, c.t) + c.t <= |c.rows| && (k > 0 ==> HeldIn(s, c, 1 - b, k - 1))
    requires forall i :: 0 <= i < s.t ==> buffer[Entry(b, s.t, s.r, i)] == c.rows[Times(k, c.t)..Times(k, c.t) + c.t][i]
    requires forall i :: s.t <= i < s.t + 2 * s.r ==> buffer[Entry(b, s.t, s.r, i)] == s.buffer[Entry(b, s.t, s.r, i)]
    ensures HeldIn(s.(buffer := buffer), c, b, k)
  {
    if k > 0 { TimesNext(k - 1, c.t); } else { TimesNone(c.t); }
    TwoRowGroups(c, m, total, avail);
    hide Times, GoodComp;
    var base := Times(k, c.t);
    if base >= 2 * s.r {
      forall i | s.t <= i < s.t + 2 * s.r
        ensures buffer[Entry(b, s.t, s.r, i)] == c.rows[base - 2 * s.r + (i - s.t)]
      {
        EntryOther(1 - b, s.t, s.r, i - s.t);
        assert s.buffer[Entry(1 - b, s.t, s.r, i - 2 * s.r)] == c.rows[Times(k - 1, c.t) + (i - 2 * s.r)];
      }
    }
  }

  // ----- the state machine -----

  // The coefficient controller: for each coming call whether it can deliver an iMCU row, as it can at last.
  class RowSource {
    var ready: seq<bool>

    constructor (ready: seq<bool>)
      ensures this.ready == ready
    {
      this.ready := ready;
    }

    method Ask() returns (ok: bool)
      modifies this
      ensures ok <==> old(ready) == [] || old(ready)[0]
      ensures ready == if old(ready) == [] then [] else old(ready)[1..]
    {
      ok := ready == [] || ready[0];
      if ready != [] { ready := ready[1..]; }
    }
  }

  // post_process_data: as many row groups as there is output for.
  method Feed(post: Post, strips: seq<Strip>, which: nat, ctr: nat, rowgroupsAvail: nat,
              ghost img: seq<Comp>, ghost m: nat, ghost total: nat, ghost avail: nat)
    returns (newCtr: nat, filled: bool)
    requires GoodImage(img, m, total, avail) && Seen(post.log, img, m, total, avail) && ctr < rowgroupsAvail
    requires forall g, c :: ctr <= g < rowgroupsAvail && 0 <= c < |strips| ==> InList(strips[c], g)
    requires forall g :: ctr <= g < rowgroupsAvail ==> Windows(strips, which, g) == Expected(img, m, total, avail, |post.log| + (g - ctr))
    modifies post
    ensures Seen(post.log, img, m, total, avail) && ctr <= newCtr <= rowgroupsAvail && |post.log| == |old(post.log)| + (newCtr - ctr)
    ensures |post.takes| <= |old(post.takes)| && (newCtr > ctr || |post.takes| < |old(post.takes)|)
  {
    hide GoodImage, InList;
    var n := rowgroupsAvail - ctr;
    filled := false;
    if post.takes != [] {
      n := if post.takes[0].0 < n then post.takes[0].0 else n;
      filled := post.takes[0].1;
      post.takes := post.takes[1..];
    }
    newCtr := ctr;
    while newCtr < ctr + n
      invariant ctr <= newCtr <= ctr + n && Seen(post.log, img, m, total, avail) && |post.log| == |old(post.log)| + (newCtr - ctr)
      invariant post.takes == if old(post.takes) == [] then [] else old(post.takes)[1..]
    {
      post.log := post.log + [Windows(strips, which, newCtr)];
      newCtr := newCtr + 1;
    }
  }

  class Main {
    const m: nat
    const total: nat
    var strips: seq<Strip>
    var bufferFull: bool
    var rowgroupCtr: nat
    var whichptr: nat
    var contextState: ContextState
    var rowgroupsAvail: nat
    var imcuRowCtr: nat

    // The iMCU row being processed, or waited for.
    ghost function Current(): int
      reads this
    {
      if bufferFull then imcuRowCtr - 1 else imcuRowCtr
    }

    ghost predicate Common(img: seq<Comp>, avail: nat, post: Post)
      reads this, post
    {
      && GoodImage(img, m, total, avail) && GoodStrips(strips, img) && Seen(post.log, img, m, total, avail)
      && 0 <= Current() < total && whichptr == Current() % 2
    }

    // At the start: nothing has been read.
    ghost predicate Fresh(img: seq<Comp>, avail: nat, post: Post)
      reads this, post
    {
      Common(img, avail, post) && contextState == PrepareForImcu && !bufferFull && imcuRowCtr == 0 && AllAtTop(strips) && post.log == []
    }

    // An iMCU row has been read, and the row groups before it have been seen.
    ghost predicate Pending(img: seq<Comp>, avail: nat, post: Post)
      reads this, post
    {
      && Common(img, avail, post) && contextState == PrepareForImcu && bufferFull
      && AllHeld(strips, img, whichptr, Current()) && Pointed(strips, Current()) && |post.log| == Times(Current(), m)
    }

    ghost predicate Processing(img: seq<Comp>, avail: nat, post: Post)
      reads this, post
    {
      && Common(img, avail, post) && contextState == ProcessImcu && bufferFull
      && AllHeld(strips, img, whichptr, Current()) && AllPointedAt(strips, img, whichptr, Current(), total)
      && rowgroupCtr < rowgroupsAvail == (if Current() == total - 1 then avail else m - 1)
      && |post.log| == Times(Current(), m) + rowgroupCtr
    }

    // The last row group of the iMCU row before still has to be seen; the next one has been read, or not.
    ghost predicate Postponed(img: seq<Comp>, avail: nat, post: Post)
      reads this, post
    {
      && Common(img, avail, post) && contextState == PostponedRow && Current() >= 1 && AllNormal(strips)
      && (if bufferFull then AllHeld(strips, img, whichptr, Current()) else AllHeld(strips, img, 1 - whichptr, Current() - 1))
      && rowgroupCtr == m + 1 && rowgroupsAvail == m + 2 && |post.log| + 1 == Times(Current(), m)
    }

    ghost predicate Running(img: seq<Comp>, avail: nat, post: Post)
      reads this, post
    {
      Fresh(img, avail, post) || Pending(img, avail, post) || Processing(img, avail, post) || Postponed(img, avail, post)
    }

    // Everything has been seen.
    ghost predicate Done(img: seq<Comp>, avail: nat, post: Post)
      reads this, post
    {
      GoodImage(img, m, total, avail) && total >= 1 && Seen(post.log, img, m, total, avail) && |post.log| == Groups(m, total, avail)
    }

    // start_pass_main
    constructor (m: nat, total: nat, strips: seq<Strip>, ghost img: seq<Comp>, ghost avail: nat, ghost post: Post)
      requires GoodImage(img, m, total, avail) && GoodStrips(strips, img) && post.log == []
      ensures this.m == m && this.total == total && Fresh(img, avail, post)
    {
      TotalPositive(img, m, total, avail);
      var s := MakeFunnyPointers(strips, img);
      this.m, this.total, this.strips := m, total, s;
      bufferFull, rowgroupCtr, whichptr, contextState, rowgroupsAvail, imcuRowCtr := false, 0, 0, PrepareForImcu, 0, 0;
    }

    // The input side.
    method ReadInput(src: RowSource, img: seq<Comp>, post: Post, ghost avail: nat) returns (ok: bool)
      requires Running(img, avail, post)
      modifies this, src
      ensures Running(img, avail, post) && (ok ==> bufferFull && !Fresh(img, avail, post))
      ensures ok ==> contextState == old(contextState)
      ensures |src.ready| <= |old(src.ready)| && (ok || |src.ready| < |old(src.ready)|)
    {
      hide GoodImage, GoodStrips, Seen, AllHeld, AllNormal, AllAtTop, Times;
      ok := true;
      if !bufferFull {
        ok := src.Ask();
        if !ok {
          return;
        }
        strips := LoadRows(strips, img, whichptr, imcuRowCtr, m, total, avail);
        bufferFull := true;
        imcuRowCtr := imcuRowCtr + 1;
        if contextState == PrepareForImcu { TimesNone(m); }
      }
    }

    // The postponed row group; what is left to do is to prepare for the iMCU row.
    method FeedPostponed(post: Post, img: seq<Comp>, ghost avail: nat) returns (ok: bool, filled: bool)
      requires Postponed(img, avail, post) && bufferFull
      modifies this, post
      ensures if ok then Pending(img, avail, post) && |post.log| > |old(post.log)| else Postponed(img, avail, post)
      ensures |post.log| >= |old(post.log)| && |post.takes| <= |old(post.takes)|
      ensures ok || |post.takes| < |old(post.takes)|
    {
      hide GoodImage, Seen, AllHeld, AllNormal, Times, InList;
      WindowsPostponed(strips, img, whichptr, Current(), m, total, avail);
      hide GoodStrips;
      var ctr;
      ctr, filled := Feed(post, strips, whichptr, rowgroupCtr, rowgroupsAvail, img, m, total, avail);
      rowgroupCtr := ctr;
      ok := rowgroupCtr == rowgroupsAvail;
      if ok { contextState := PrepareForImcu; }
    }

    // Prepare to process an iMCU row.
    method Prepare(img: seq<Comp>, post: Post, ghost avail: nat)
      requires Pending(img, avail, post)
      modifies this
      ensures Processing(img, avail, post)
    {
      hide GoodImage, Seen, AllHeld, AllNormal, AllAtTop, Times, GoodStrips;
      TotalPositive(img, m, total, avail);
      rowgroupCtr, rowgroupsAvail := 0, m - 1;
      if imcuRowCtr == total {
        strips, rowgroupsAvail := SetBottomPointers(strips, img, whichptr, m, total, avail);
      } else {
        PlainPointers(strips, img, whichptr, Current(), m, total, avail);
      }
      contextState := ProcessImcu;
    }

    // The row groups of the iMCU row, all of them at the bottom of the image, all but the last one elsewhere.
    method FeedRows(post: Post, img: seq<Comp>, ghost avail: nat)
      requires Processing(img, avail, post)
      modifies this, post
      ensures Processing(img, avail, post) || Postponed(img, avail, post) || Done(img, avail, post)
      ensures |post.log| >= |old(post.log)| && |post.takes| <= |old(post.takes)|
      ensures |post.log| > |old(post.log)| || |post.takes| < |old(post.takes)|
    {
      hide GoodImage, Seen, AllHeld, AllNormal, AllAtTop, Times, InList, AllPointedAt;
      ghost var k := Current();
      TotalPositive(img, m, total, avail);
      ViewsAhead(strips, img, whichptr, k, rowgroupCtr, rowgroupsAvail, m, total, avail);
      hide GoodStrips;
      var ctr, filled := Feed(post, strips, whichptr, rowgroupCtr, rowgroupsAvail, img, m, total, avail);
      rowgroupCtr := ctr;
      if rowgroupCtr < rowgroupsAvail {
        return;
      }
      TimesNext(k, m);
      if imcuRowCtr == 1 {
        if k < total - 1 { TopPointers(strips, img, whichptr, k, total); }
        strips := SetWraparoundPointers(strips, img, whichptr, k);
      } else if k < total - 1 {
        NormalPointers(strips, img, whichptr, k, total);
      }
      whichptr := 1 - whichptr;
      bufferFull := false;
      rowgroupCtr, rowgroupsAvail := m + 1, m + 2;
      contextState := PostponedRow;
    }

    // process_data_context_main
    method ProcessData(src: RowSource, post: Post, img: seq<Comp>, ghost avail: nat)
      requires Running(img, avail, post)
      modifies this, src, post
      ensures Running(img, avail, post) || Done(img, avail, post)
      ensures |post.log| >= |old(post.log)| && |post.takes| <= |old(post.takes)| && |src.ready| <= |old(src.ready)|
      ensures |post.log| > |old(post.log)| || |post.takes| < |old(post.takes)| || |src.ready| < |old(src.ready)|
    {
      hide GoodImage, Seen, AllHeld, AllNormal, AllAtTop, Times, AllPointedAt, GoodStrips;
      var ok := ReadInput(src, img, post, avail);
      if !ok {
        return;
      }
      if contextState == PostponedRow {
        var filled;
        ok, filled := FeedPostponed(post, img, avail);
        if !ok || filled {
          return;
        }
      }
      if contextState == PrepareForImcu {
        Prepare(img, post, avail);
      }
      FeedRows(post, img, avail);
    }
  }

  lemma PlainPointers(strips: seq<Strip>, img: seq<Comp>, b: nat, k: nat, m: nat, total: nat, avail: nat)
    requires GoodImage(img, m, total, avail) && GoodStrips(strips, img) && k < total - 1 && b == k % 2 && Pointed(strips, k)
    ensures AllPointedAt(strips, img, b, k, total)
  {
    hide Core, Topped, WrappedAbove, WrappedBelow, GoodList;
    forall c | 0 <= c < |img|
      ensures PointedAt(strips[c], img[c], b, k, total)
    {
      assert GoodComp(img[c], m, total, avail);
      if k == 0 { TimesNone(img[c].t); } else { TimesMono(1, k, img[c].t); TimesOne(img[c].t); }
      TwoRowGroups(img[c], m, total, avail);
    }
  }

  lemma TopPointers(strips: seq<Strip>, img: seq<Comp>, b: nat, k: nat, total: nat)
    requires |strips| == |img| && total >= 1 && k == 0 < total - 1 && AllPointedAt(strips, img, b, k, total)
    ensures AllAtTop(strips)
  {
    hide Strip.AtTop;
    forall c | 0 <= c < |strips|
      ensures strips[c].Valid() && strips[c].AtTop()
    {
      assert PointedAt(strips[c], img[c], b, k, total);
    }
  }

  lemma NormalPointers(strips: seq<Strip>, img: seq<Comp>, b: nat, k: nat, total: nat)
    requires |strips| == |img| && total >= 1 && 0 < k < total - 1 && AllPointedAt(strips, img, b, k, total)
    ensures AllNormal(strips)
  {
    hide Strip.Normal;
    forall c | 0 <= c < |strips|
      ensures strips[c].Valid() && strips[c].Normal()
    {
      assert PointedAt(strips[c], img[c], b, k, total);
    }
  }

  lemma AllSeen(post: Post, img: seq<Comp>, m: nat, total: nat, avail: nat)
    requires GoodImage(img, m, total, avail) && Seen(post.log, img, m, total, avail)
    ensures forall j :: 0 <= j < |post.log| ==> post.log[j] == Expected(img, m, total, avail, j)
  {
  }

  // While it runs there is more to be seen.
  lemma MoreToCome(main: Main, img: seq<Comp>, avail: nat, post: Post)
    requires main.Running(img, avail, post)
    ensures main.total >= 1 && |post.log| < Groups(main.m, main.total, avail)
  {
    hide GoodImage, GoodStrips, Seen, AllHeld, AllNormal, AllAtTop, AllPointedAt, Times;
    TotalPositive(img, main.m, main.total, avail);
    var k := main.Current();
    TimesMono(k, main.total - 1, main.m);
    if k < main.total - 1 {
      TimesNext(k, main.m);
      TimesMono(k + 1, main.total - 1, main.m);
    }
  }

  // The whole pass: the caller goes on until it has all its rows.
  method ProcessAll(src: RowSource, post: Post, strips: seq<Strip>, img: seq<Comp>, m: nat, total: nat, avail: nat)
    requires GoodImage(img, m, total, avail) && GoodStrips(strips, img) && post.log == []
    modifies src, post
    ensures total >= 1 && |post.log| == Groups(m, total, avail)
    ensures forall j :: 0 <= j < |post.log| ==> post.log[j] == Expected(img, m, total, avail, j)
  {
    TotalPositive(img, m, total, avail);
    hide GoodImage, GoodStrips, Times, AllAtTop, Seen;
    var main := new Main(m, total, strips, img, avail, post);
    hide Main.Pending, Main.Processing, Main.Postponed, Main.Fresh;
    MoreToCome(main, img, avail, post);
    while |post.log| < Groups(m, total, avail)
      invariant fresh(main) && main.m == m && main.total == total && (main.Running(img, avail, post) || main.Done(img, avail, post))
      invariant |post.log| <= Groups(m, total, avail)
      decreases Groups(m, total, avail) - |post.log|, |post.takes| + |src.ready|
    {
      main.ProcessData(src, post, img, avail);
      if main.Running(img, avail, post) { MoreToCome(main, img, avail, post); }
    }
    AllSeen(post, img, m, total, avail);
  }
}
