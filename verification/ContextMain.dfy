// The decompressor's main controller with context rows: a state machine around the two pointer lists.
module ContextMain {
  import opened Geometry
  import opened PointerLists
  import opened ContextViews

  // ----- the image -----

  // A component after the inverse DCT: its real height, and its rows with those that fill up the last iMCU row.
  datatype Comp = Comp(r: nat, t: nat, height: nat, rows: seq<Row>)

  // m row groups make an iMCU row, total iMCU rows the image, and the last of them has avail row groups with real rows.
  ghost predicate GoodComp(c: Comp, m: nat, total: nat, avail: nat) {
    && c.r >= 1 && m >= 2 && c.t == Times(m, c.r) && Spans(c.height, c.t, total) && |c.rows| == Times(total, c.t)
    && 1 <= avail <= m && Spans(c.height - Times(total - 1, c.t), c.r, avail)
  }

  ghost predicate GoodImage(img: seq<Comp>, m: nat, total: nat, avail: nat) {
    img != [] && forall c :: 0 <= c < |img| ==> GoodComp(img[c], m, total, avail)
  }

  // The row groups of the whole image.
  function Groups(m: nat, total: nat, avail: nat): nat
    requires total >= 1
  {
    Times(total - 1, m) + avail
  }

  // The last row that row group j can see. One row group is processed before the bottom pointers are set, and
  // can see past the last real row: the one just before the last iMCU row.
  function LastSeen(c: Comp, m: nat, total: nat, j: nat): nat
    requires total >= 1 && c.height >= 1 && |c.rows| >= 1
  {
    if j + 1 == Times(total - 1, m) then |c.rows| - 1 else c.height - 1
  }

  // What the postprocessor is to see of row group j.
  ghost function Expected(img: seq<Comp>, m: nat, total: nat, avail: nat, j: nat): (w: seq<seq<Row>>)
    requires GoodImage(img, m, total, avail)
    ensures |w| == |img|
  {
    seq(|img|, c requires 0 <= c < |img| => ExpectedOf(img[c], m, total, avail, j))
  }

  ghost function ExpectedOf(c: Comp, m: nat, total: nat, avail: nat, j: nat): seq<Row>
    requires GoodComp(c, m, total, avail)
  {
    RowsReal(c, m, total, avail);
    Around(c.rows, Times(j, c.r), c.r, LastSeen(c, m, total, j))
  }

  lemma RowsReal(c: Comp, m: nat, total: nat, avail: nat)
    requires GoodComp(c, m, total, avail)
    ensures total >= 1 && 1 <= c.height <= |c.rows|
  {
  }

  // ----- the neighbours -----

  // Row i of those around row group j: the one that is seen, and the one that is meant.
  function SeenRow(c: Comp, m: nat, total: nat, j: nat, i: nat): nat
    requires total >= 1 && c.height >= 1 && |c.rows| >= 1
  {
    Clamped(Times(j, c.r) - c.r + i, LastSeen(c, m, total, j))
  }

  function TrueRow(c: Comp, j: nat, i: nat): nat
    requires c.height >= 1
  {
    Clamped(Times(j, c.r) - c.r + i, c.height - 1)
  }

  lemma SeesRows(c: Comp, m: nat, total: nat, avail: nat, j: nat, i: nat)
    requires GoodComp(c, m, total, avail) && i < 3 * c.r
    ensures total >= 1 && 1 <= c.height <= |c.rows| && SeenRow(c, m, total, j, i) < |c.rows|
    ensures |ExpectedOf(c, m, total, avail, j)| == 3 * c.r && ExpectedOf(c, m, total, avail, j)[i] == c.rows[SeenRow(c, m, total, j, i)]
  {
    RowsReal(c, m, total, avail);
  }

  // The row group just before the last iMCU row.
  lemma BeforeLast(c: Comp, m: nat, total: nat, avail: nat, j: nat)
    requires GoodComp(c, m, total, avail) && j + 1 == Times(total - 1, m)
    ensures var start := Times(total - 1, c.t); Times(j, c.r) == start - c.r && |c.rows| == start + c.t && start < c.height && c.t >= 2 * c.r
  {
    TimesNext(j, c.r);
    Regroup(total - 1, m, c.r);
    TimesNext(total - 1, c.t);
    RowGroupFits(m, c.r);
  }

  lemma Regroup(n: nat, m: nat, r: nat)
    ensures Times(Times(n, m), r) == Times(n, Times(m, r))
  {
    assert n * m * r == n * (m * r);
  }

  // In a row group the rows themselves, the row just above and the row just below are always the true ones, the first and
  // last row of the image repeating themselves. These are all the rows that the upsamplers use.
  lemma NearRowsTrue(c: Comp, m: nat, total: nat, avail: nat, j: nat, i: nat)
    requires GoodComp(c, m, total, avail) && c.r - 1 <= i <= 2 * c.r
    ensures total >= 1 && 1 <= c.height <= |c.rows| && SeenRow(c, m, total, j, i) == TrueRow(c, j, i) < |c.rows|
    ensures i < 3 * c.r ==> |ExpectedOf(c, m, total, avail, j)| == 3 * c.r && ExpectedOf(c, m, total, avail, j)[i] == c.rows[TrueRow(c, j, i)]
  {
    hide Times;
    RowsReal(c, m, total, avail);
    if i < 3 * c.r { SeesRows(c, m, total, avail, j, i); }
    if j + 1 == Times(total - 1, m) { BeforeLast(c, m, total, avail, j); }
  }

  // A whole row group of context on either side is true unless the row group is the one just before the last iMCU row
  // and that iMCU row has less than one real row group.
  lemma AllRowsTrue(c: Comp, m: nat, total: nat, avail: nat, j: nat)
    requires GoodComp(c, m, total, avail)
    ensures total >= 1 && 1 <= c.height <= |c.rows|
    ensures (forall i :: 0 <= i < 3 * c.r ==> SeenRow(c, m, total, j, i) == TrueRow(c, j, i))
      <==> j + 1 != Times(total - 1, m) || c.height - Times(total - 1, c.t) >= c.r
  {
    hide Times;
    RowsReal(c, m, total, avail);
    if j + 1 == Times(total - 1, m) {
      BeforeLast(c, m, total, avail, j);
      var left := c.height - Times(total - 1, c.t);
      if left < c.r { assert SeenRow(c, m, total, j, 2 * c.r + left) != TrueRow(c, j, 2 * c.r + left); }
    }
  }

  // It does happen: a component of two rows per row group in an image 17 rows high. The last of the rows below row group 7 should be the
  // image's last row again, and is the row behind it, which is not a row of the image.
  lemma WrongRow(rows: seq<Row>)
    requires |rows| == 32
    ensures var c := Comp(2, 16, 17, rows);
      GoodComp(c, 8, 2, 1) && 7 + 1 == Times(2 - 1, 8) && SeenRow(c, 8, 2, 7, 5) == 17 && TrueRow(c, 7, 5) == 16
  {
  }

  lemma RowGroupFits(m: nat, r: nat)
    requires m >= 2
    ensures Times(m, r) >= 2 * r
  {
    TimesMono(2, m, r);
    assert Times(2, r) == 2 * r;
  }

  // Every component has the same number of real row groups: with samples in units, the sample rows of a component
  // are its share of the image height, and a row group is r of them.
  lemma SameGroups(height: nat, r: nat, unit: nat)
    requires height >= 1 && r >= 1 && unit >= 1
    ensures Spans(DivRoundUp(height * r, unit), r, DivRoundUp(height, unit))
  {
    RoundsUpTwice(height, r, unit);
  }
}
