// The main controller's workspace of row groups, and the two lists of row pointers through which it is seen.
module PointerLists {
  type Row = seq<int>

  // ----- one list -----

  // t is the rows of an iMCU row, r those of a row group; entry r + i of a list is what the code calls xbuf[i].
  type RowList = seq<nat>

  ghost predicate GoodList(x: RowList, t: nat, r: nat) {
    r >= 1 && 2 * r <= t && |x| == t + 4 * r && forall i :: 0 <= i < |x| ==> x[i] < t + 2 * r
  }

  // What list b has at row i, not counting the wraparound pointers: the second list has its last four row groups swapped.
  function Entry(b: nat, t: nat, r: nat, i: nat): nat
    requires 2 * r <= t && i < t + 2 * r
  {
    if b == 0 || i < t - 2 * r then i else if i < t then i + 2 * r else i - 2 * r
  }

  // The last two row groups of an iMCU row that was read through one list are behind the end of the other.
  lemma EntryOther(b: nat, t: nat, r: nat, e: nat)
    requires b < 2 && 2 * r <= t && e < 2 * r
    ensures Entry(1 - b, t, r, t + e) == Entry(b, t, r, t - 2 * r + e)
  {
  }

  // The middle of list b, down to row n.
  ghost predicate Core(x: RowList, b: nat, t: nat, r: nat, n: nat)
    requires GoodList(x, t, r) && n <= t + 2 * r
  {
    forall i :: r <= i < r + n ==> x[i] == Entry(b, t, r, i - r)
  }

  // The wraparound pointers of list b.
  ghost predicate WrappedAbove(x: RowList, b: nat, t: nat, r: nat)
    requires GoodList(x, t, r)
  {
    forall i :: 0 <= i < r ==> x[i] == Entry(b, t, r, t + r + i)
  }

  ghost predicate WrappedBelow(x: RowList, b: nat, t: nat, r: nat)
    requires GoodList(x, t, r)
  {
    forall i :: t + 3 * r <= i < t + 4 * r ==> x[i] == Entry(b, t, r, i - (t + 3 * r))
  }

  // The pointers above the first row of the image.
  ghost predicate Topped(x: RowList, t: nat, r: nat)
    requires GoodList(x, t, r)
  {
    forall i :: 0 <= i < r ==> x[i] == 0
  }

  // The last real row of list b is row left - 1; it stands for all those after it.
  ghost predicate Bottomed(x: RowList, b: nat, t: nat, r: nat, left: nat)
    requires GoodList(x, t, r) && 1 <= left <= t
  {
    Core(x, b, t, r, left) && forall i :: r + left <= i < r + left + 2 * r ==> x[i] == Entry(b, t, r, left - 1)
  }

  // The workspace pointers in their order.
  method CopyInOrder(x: RowList, t: nat, r: nat) returns (y: RowList)
    requires GoodList(x, t, r)
    ensures GoodList(y, t, r) && Core(y, 0, t, r, t + 2 * r)
  {
    y := x;
    var i: nat := 0;
    while i < t + 2 * r
      invariant i <= t + 2 * r && GoodList(y, t, r) && forall k :: r <= k < r + i ==> y[k] == k - r
    {
      y := y[r + i := i];
      i := i + 1;
    }
  }

  // In the second list, the row groups at the end change places in pairs.
  method SwapLast(x: RowList, t: nat, r: nat) returns (y: RowList)
    requires GoodList(x, t, r) && Core(x, 0, t, r, t + 2 * r)
    ensures GoodList(y, t, r) && Core(y, 1, t, r, t + 2 * r)
  {
    y := x;
    var i: nat := 0;
    while i < 2 * r
      invariant i <= 2 * r && GoodList(y, t, r)
      invariant forall k :: r <= k < t - r ==> y[k] == k - r
      invariant forall k :: t - r <= k < t - r + i ==> y[k] == k + r
      invariant forall k :: t + r <= k < t + r + i ==> y[k] == k - 3 * r
    {
      y := y[r + (t - 2 * r) + i := t + i];
      y := y[r + t + i := t - 2 * r + i];
      i := i + 1;
    }
  }

  // Above the first row, the first row again.
  method RepeatFirst(x: RowList, t: nat, r: nat) returns (y: RowList)
    requires GoodList(x, t, r) && Core(x, 0, t, r, t + 2 * r)
    ensures GoodList(y, t, r) && Core(y, 0, t, r, t + 2 * r) && Topped(y, t, r)
  {
    y := x;
    var i: nat := 0;
    while i < r
      invariant i <= r && GoodList(y, t, r) && (forall k :: r <= k < |y| ==> y[k] == x[k]) && forall k :: 0 <= k < i ==> y[k] == 0
    {
      y := y[i := y[r]];
      i := i + 1;
    }
  }

  // Above the first row the last row group of the list, below the last one the first.
  method Wrap(x: RowList, t: nat, r: nat, ghost b: nat) returns (y: RowList)
    requires GoodList(x, t, r)
    ensures GoodList(y, t, r)
    ensures Core(x, b, t, r, t + 2 * r) ==> Core(y, b, t, r, t + 2 * r) && WrappedAbove(y, b, t, r) && WrappedBelow(y, b, t, r)
  {
    y := x;
    var i: nat := 0;
    while i < r
      invariant i <= r && GoodList(y, t, r) && forall k :: r <= k < t + 3 * r ==> y[k] == x[k]
      invariant forall k :: 0 <= k < i ==> y[k] == x[t + 2 * r + k]
      invariant forall k :: t + 3 * r <= k < t + 3 * r + i ==> y[k] == x[k - (t + 2 * r)]
    {
      y := y[i := y[r + (t + r) + i]];
      y := y[r + (t + 2 * r) + i := y[r + i]];
      i := i + 1;
    }
  }

  // The last real row again and again.
  method RepeatLast(x: RowList, t: nat, r: nat, left: nat, ghost b: nat) returns (y: RowList)
    requires GoodList(x, t, r) && 1 <= left <= t
    ensures GoodList(y, t, r) && y[..r] == x[..r] && (Core(x, b, t, r, t + 2 * r) ==> Bottomed(y, b, t, r, left))
  {
    y := x;
    var i: nat := 0;
    while i < 2 * r
      invariant i <= 2 * r && GoodList(y, t, r) && forall k :: 0 <= k < r + left ==> y[k] == x[k]
      invariant forall k :: r + left <= k < r + left + i ==> y[k] == x[r + left - 1]
    {
      y := y[r + left + i := y[r + left - 1]];
      i := i + 1;
    }
  }

  // An iMCU row's rows go where the list says.
  method Scatter(buffer: seq<Row>, x: RowList, t: nat, r: nat, rows: seq<Row>, ghost b: nat) returns (after: seq<Row>)
    requires GoodList(x, t, r) && |buffer| == t + 2 * r && |rows| == t
    ensures |after| == |buffer|
    ensures Core(x, b, t, r, t + 2 * r) ==>
      && (forall i :: 0 <= i < t ==> after[Entry(b, t, r, i)] == rows[i])
      && (forall i :: t <= i < t + 2 * r ==> after[Entry(b, t, r, i)] == buffer[Entry(b, t, r, i)])
  {
    after := buffer;
    ghost var sure := Core(x, b, t, r, t + 2 * r);
    var i: nat := 0;
    while i < t
      invariant i <= t && |after| == |buffer|
      invariant sure ==> forall k :: 0 <= k < i ==> after[Entry(b, t, r, k)] == rows[k]
      invariant sure ==> forall k :: t <= k < t + 2 * r ==> after[Entry(b, t, r, k)] == buffer[Entry(b, t, r, k)]
    {
      assert sure ==> x[r + i] == Entry(b, t, r, i);
      after := after[x[r + i] := rows[i]];
      i := i + 1;
    }
  }
}
