// What the postprocessor sees of an iMCU row and its neighbours through both lists of rows.
module ContextViews {
  import opened Geometry
  import opened PointerLists

  // The workspace of a component, and both lists.
  datatype Strip = Strip(r: nat, t: nat, buffer: seq<Row>, x0: RowList, x1: RowList) {
    ghost predicate Valid() { GoodList(x0, t, r) && GoodList(x1, t, r) && |buffer| == t + 2 * r }

    function List(b: nat): RowList { if b == 0 then x0 else x1 }

    ghost predicate AtTop()
      requires Valid()
    {
      Core(x0, 0, t, r, t + 2 * r) && Core(x1, 1, t, r, t + 2 * r) && Topped(x0, t, r)
    }

    ghost predicate Normal()
      requires Valid()
    {
      && Core(x0, 0, t, r, t + 2 * r) && WrappedAbove(x0, 0, t, r) && WrappedBelow(x0, 0, t, r)
      && Core(x1, 1, t, r, t + 2 * r) && WrappedAbove(x1, 1, t, r) && WrappedBelow(x1, 1, t, r)
    }

    // Through list b, the iMCU row that starts at row base of the image, and behind it the two row groups before that.
    ghost predicate Held(b: nat, image: seq<Row>, base: nat)
      requires Valid() && base + t <= |image|
    {
      && (forall i :: 0 <= i < t ==> buffer[Entry(b, t, r, i)] == image[base + i])
      && (base >= 2 * r ==> forall i :: t <= i < t + 2 * r ==> buffer[Entry(b, t, r, i)] == image[base - 2 * r + (i - t)])
    }

    // The pointers above list b are those of the row group before; there is none at the top of the image.
    ghost predicate Above(b: nat, base: nat)
      requires Valid()
    {
      if base == 0 then b == 0 && Topped(x0, t, r) else base >= 2 * r && WrappedAbove(List(b), b, t, r)
    }

    // Row group g of list b with the row groups around it: what a pointer at xbuf[g * r] lets the postprocessor see.
    function Window(b: nat, g: nat): (w: seq<Row>)
      requires Valid() && Times(g, r) + 3 * r <= t + 4 * r
      ensures |w| == 3 * r
    {
      seq(3 * r, i requires 0 <= i < 3 * r => buffer[List(b)[Times(g, r) + i]])
    }
  }

  // The row of the image that takes the place of row e: the first and the last row go on outside the image.
  function Clamped(e: int, last: nat): nat { if e < 0 then 0 else if e > last then last else e }

  // The rows seen around the row group that starts at row e0.
  function Around(image: seq<Row>, e0: nat, r: nat, last: nat): (w: seq<Row>)
    requires last < |image|
    ensures |w| == 3 * r
  {
    seq(3 * r, i requires 0 <= i < 3 * r => image[Clamped(e0 - r + i, last)])
  }

  // A row group in the middle: all the rows around it are rows of the image, but for those above its first row.
  lemma ViewMiddle(s: Strip, b: nat, image: seq<Row>, base: nat, g: nat, last: nat)
    requires s.Valid() && b < 2 && base + s.t <= |image| && s.Held(b, image, base) && s.Above(b, base)
    requires Core(s.List(b), b, s.t, s.r, s.t + 2 * s.r) && Times(g, s.r) + 2 * s.r <= s.t && base + s.t <= last + 1 <= |image|
    ensures s.Window(b, g) == Around(image, base + Times(g, s.r), s.r, last)
  {
    hide Times;
    var first := Times(g, s.r);
    forall i | 0 <= i < 3 * s.r
      ensures s.Window(b, g)[i] == image[Clamped(base + first - s.r + i, last)]
    {
      RowAt(s, b, image, base, first + i);
    }
  }

  // The row that entry n of list b points to.
  lemma RowAt(s: Strip, b: nat, image: seq<Row>, base: nat, n: nat)
    requires s.Valid() && b < 2 && base + s.t <= |image| && s.Held(b, image, base) && s.Above(b, base) && n < s.r + s.t
    requires n >= s.r ==> s.List(b)[n] == Entry(b, s.t, s.r, n - s.r)
    ensures s.buffer[s.List(b)[n]] == image[if base == 0 && n < s.r then 0 else base + n - s.r]
  {
    if n < s.r {
      if base == 0 {
        assert Entry(0, s.t, s.r, 0) == 0;
      } else {
        assert s.List(b)[n] == Entry(b, s.t, s.r, s.t + s.r + n);
      }
    }
  }

  // The last row group of the previous iMCU row, once the next one is there.
  lemma ViewPostponed(s: Strip, b: nat, image: seq<Row>, base: nat, m: nat, last: nat)
    requires s.Valid() && b < 2 && base + s.t <= last + 1 <= |image| && s.Held(b, image, base) && base >= s.t && s.t == Times(m, s.r)
    requires Core(s.List(b), b, s.t, s.r, s.t + 2 * s.r) && WrappedBelow(s.List(b), b, s.t, s.r)
    ensures Times(m + 1, s.r) == s.t + s.r && s.Window(b, m + 1) == Around(image, base - s.r, s.r, last)
  {
    hide Times;
    TimesNext(m, s.r);
    var w := s.Window(b, m + 1);
    forall i | 0 <= i < 3 * s.r
      ensures w[i] == image[Clamped(base - s.r - s.r + i, last)]
    {
      RowBehind(s, b, image, base, i);
    }
  }

  // Entry i behind the rows of the iMCU row: the two row groups before it, then its own first one.
  lemma RowBehind(s: Strip, b: nat, image: seq<Row>, base: nat, i: nat)
    requires s.Valid() && b < 2 && base + s.t <= |image| && s.Held(b, image, base) && base >= s.t && i < 3 * s.r
    requires Core(s.List(b), b, s.t, s.r, s.t + 2 * s.r) && WrappedBelow(s.List(b), b, s.t, s.r)
    ensures s.buffer[s.List(b)[s.t + s.r + i]] == image[base - 2 * s.r + i]
  {
    if i < 2 * s.r {
      assert s.List(b)[s.t + s.r + i] == Entry(b, s.t, s.r, s.t + i);
      assert s.buffer[Entry(b, s.t, s.r, s.t + i)] == image[base - 2 * s.r + (s.t + i - s.t)];
    } else {
      assert s.List(b)[s.t + s.r + i] == Entry(b, s.t, s.r, i - 2 * s.r);
    }
  }

  // A row group of the last iMCU row, of which left rows are real.
  lemma ViewBottom(s: Strip, b: nat, image: seq<Row>, base: nat, g: nat, left: nat)
    requires s.Valid() && b < 2 && base + s.t <= |image| && s.Held(b, image, base) && s.Above(b, base) && 1 <= left <= s.t
    requires Bottomed(s.List(b), b, s.t, s.r, left) && Times(g, s.r) < left
    ensures Times(g, s.r) + 3 * s.r <= s.t + 4 * s.r
    ensures s.Window(b, g) == Around(image, base + Times(g, s.r), s.r, base + left - 1)
  {
    hide Times, Entry, Core, Strip.Held, Strip.Above;
    var first := Times(g, s.r);
    forall i | 0 <= i < 3 * s.r
      ensures s.Window(b, g)[i] == image[Clamped(base + first - s.r + i, base + left - 1)]
    {
      RowAtBottom(s, b, image, base, first + i, left);
    }
  }

  lemma RowAtBottom(s: Strip, b: nat, image: seq<Row>, base: nat, n: nat, left: nat)
    requires s.Valid() && b < 2 && base + s.t <= |image| && s.Held(b, image, base) && s.Above(b, base) && 1 <= left <= s.t
    requires Bottomed(s.List(b), b, s.t, s.r, left) && n < left + 3 * s.r && n < s.t + 4 * s.r
    ensures s.buffer[s.List(b)[n]] == image[Clamped(base + n - s.r, base + left - 1)]
  {
    hide Strip.Held;
    if n < s.r + left {
      RowAt(s, b, image, base, n);
    } else {
      assert s.List(b)[n] == s.List(b)[s.r + left - 1] == Entry(b, s.t, s.r, left - 1);
      RowAt(s, b, image, base, s.r + left - 1);
    }
  }
}
