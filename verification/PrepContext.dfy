// The compressor's preprocessing controller with context rows: a ring of three row groups seen through wrapped-around pointers.
module PrepContext {
  import opened Geometry
  import opened PointerLists
  import opened ContextViews

  class Prep {
    const v: nat
    const image: seq<Row>
    var trueBuffer: seq<Row>
    var fakeBuffer: seq<nat>
    var rowsToGo: nat
    var nextBufRow: nat
    var thisRowGroup: nat
    var nextBufStop: nat

    // The row groups that went to the downsampler, each with what it saw around it.
    var log: seq<seq<Row>>

    // The row that was stored at the beginning of the buffer this time round.
    ghost var origin: nat

    // The rows stored so far, with those that repeat the last one.
    ghost function Stored(): nat
      reads this
    {
      origin + nextBufRow
    }

    // Five row groups of pointers around the three of the buffer.
    ghost predicate Wired()
      reads this`trueBuffer, this`fakeBuffer
    {
      && |trueBuffer| == 3 * v && |fakeBuffer| == 5 * v
      && forall i :: 0 <= i < 5 * v ==> fakeBuffer[i] == if i < v then 2 * v + i else if i < 4 * v then i - v else i - 4 * v
    }

    // Where the ring is: the row group to process, and how far it is to be filled for that.
    ghost predicate Placed()
      reads this`log, this`thisRowGroup, this`nextBufStop, this`origin
    {
      var start := Times(|log|, v);
      || (thisRowGroup == 0 && nextBufStop == 2 * v && start == origin)
      || (thisRowGroup == v && nextBufStop == 3 * v && start == origin + v)
      || (thisRowGroup == 2 * v && nextBufStop == v && start + v == origin)
    }

    // Row e of the image, which goes on outside itself.
    ghost function RowFor(e: int): Row
      requires image != []
    {
      image[Clamped(e, |image| - 1)]
    }

    // The buffer holds the last three row groups' worth of rows, at the top also those above the image.
    ghost predicate Filled()
      requires image != [] && |trueBuffer| == 3 * v
      reads this`trueBuffer, this`nextBufRow, this`origin
    {
      FilledWith(trueBuffer, nextBufRow, origin)
    }

    ghost predicate FilledWith(buffer: seq<Row>, next: nat, first: nat)
      requires image != [] && |buffer| == 3 * v
    {
      && (forall i :: 0 <= i < next && i < 3 * v ==> buffer[i] == RowFor(first + i))
      && (forall i :: next <= i < 3 * v && (first > 0 || (i >= 2 * v && next > 0)) ==> buffer[i] == RowFor(first + i - 3 * v))
    }

    ghost predicate Seen()
      requires image != []
      reads this`log
    {
      forall j :: 0 <= j < |log| ==> log[j] == Around(image, Times(j, v), v, |image| - 1)
    }

    ghost predicate Valid()
      reads this
    {
      && v >= 1 && image != [] && Wired() && Placed() && Filled() && Seen() && nextBufRow <= nextBufStop && rowsToGo <= |image|
      && (|log| > 0 ==> nextBufRow + v >= nextBufStop)
      && (if rowsToGo > 0 then Stored() == |image| - rowsToGo else Stored() >= |image|)
    }

    // create_context_buffer and start_pass_prep
    constructor (v: nat, image: seq<Row>)
      requires v >= 1 && image != []
      ensures Valid() && this.v == v && this.image == image && log == [] && rowsToGo == |image| && nextBufRow < nextBufStop
    {
      this.v, this.image := v, image;
      trueBuffer := seq(3 * v, _ => []);
      fakeBuffer := seq(5 * v, i => if i < v then 2 * v + i else if i < 4 * v then i - v else i - 4 * v);
      rowsToGo, nextBufRow, thisRowGroup, nextBufStop, log, origin := |image|, 0, 0, 2 * v, [], 0;
      new;
      TimesNone(v);
    }

    // The row group of the first row, above it: through the pointers, in the last third of the buffer.
    method PadTop()
      requires v >= 1 && Wired()
      modifies this`trueBuffer
      ensures Wired() && (forall i :: 0 <= i < 2 * v ==> trueBuffer[i] == old(trueBuffer)[i])
      ensures forall i :: 2 * v <= i < 3 * v ==> trueBuffer[i] == old(trueBuffer)[0]
    {
      var row := 1;
      while row <= v
        invariant 1 <= row <= v + 1 && Wired() && forall i :: 0 <= i < 2 * v ==> trueBuffer[i] == old(trueBuffer)[i]
        invariant forall i :: 3 * v - row < i < 3 * v ==> trueBuffer[i] == old(trueBuffer)[0]
      {
        trueBuffer := trueBuffer[fakeBuffer[v - row] := trueBuffer[fakeBuffer[v]]];
        row := row + 1;
      }
    }

    // At the start the ring is to be filled with two row groups.
    lemma AtStart()
      requires Valid() && rowsToGo == |image|
      ensures origin == nextBufRow == 0 && log == [] && nextBufStop == 2 * v
    {
      TimesNone(v);
    }

    // color_convert
    method StoreRows(row: nat, numrows: nat)
      requires v >= 1 && Wired() && nextBufRow + numrows <= 3 * v && row + numrows <= |image|
      modifies this`trueBuffer
      ensures Wired() && (forall k :: 0 <= k < nextBufRow ==> trueBuffer[k] == old(trueBuffer)[k])
      ensures forall k :: nextBufRow <= k < nextBufRow + numrows ==> trueBuffer[k] == image[row + (k - nextBufRow)]
      ensures forall k :: nextBufRow + numrows <= k < 3 * v ==> trueBuffer[k] == old(trueBuffer)[k]
    {
      var i := 0;
      while i < numrows
        invariant 0 <= i <= numrows && Wired()
        invariant forall k :: 0 <= k < nextBufRow ==> trueBuffer[k] == old(trueBuffer)[k]
        invariant forall k :: nextBufRow <= k < nextBufRow + i ==> trueBuffer[k] == image[row + (k - nextBufRow)]
        invariant forall k :: nextBufRow + i <= k < 3 * v ==> trueBuffer[k] == old(trueBuffer)[k]
      {
        trueBuffer := trueBuffer[fakeBuffer[v + nextBufRow + i] := image[row + i]];
        i := i + 1;
      }
    }

    // The next rows of the image.
    method Convert(numrows: nat)
      requires Valid() && 1 <= numrows <= rowsToGo && nextBufRow + numrows <= nextBufStop
      modifies this`trueBuffer, this`nextBufRow, this`rowsToGo
      ensures Valid() && nextBufRow == old(nextBufRow) + numrows && rowsToGo == old(rowsToGo) - numrows
    {
      if rowsToGo == |image| { AtStart(); }
      StopInside();
      hide Seen, Placed, FilledWith;
      ghost var was, starting := trueBuffer, rowsToGo == |image|;
      StoreRows(|image| - rowsToGo, numrows);
      if rowsToGo == |image| {
        PadTop();
      }
      NowFilled(was, trueBuffer, nextBufRow, numrows, origin, starting);
      nextBufRow := nextBufRow + numrows;
      rowsToGo := rowsToGo - numrows;
    }

    // The rows of the image from the first one not yet stored; at the start the row group above them too.
    lemma NowFilled(was: seq<Row>, now: seq<Row>, next: nat, n: nat, first: nat, starting: bool)
      requires v >= 1 && |was| == |now| == 3 * v && 1 <= n && next + n <= 3 * v && first + next + n <= |image| && FilledWith(was, next, first)
      requires starting <==> first == next == 0
      requires starting ==> n <= 2 * v
      requires forall k :: 0 <= k < next ==> now[k] == was[k]
      requires forall k :: next <= k < next + n ==> now[k] == image[first + next + (k - next)]
      requires forall k :: next + n <= k < 3 * v ==> now[k] == if starting && k >= 2 * v then image[0] else was[k]
      ensures FilledWith(now, next + n, first)
    {
    }

    lemma StopInside()
      requires Placed()
      ensures nextBufStop <= 3 * v
    {
    }

    // expand_bottom_edge: the row before the next one, again and again.
    method CopyDown(last: nat)
      requires v >= 1 && Wired() && nextBufRow < nextBufStop <= 3 * v && 1 <= v + nextBufRow && last == fakeBuffer[v + nextBufRow - 1]
      requires last < nextBufRow || nextBufStop <= last
      modifies this`trueBuffer
      ensures Wired() && (forall k :: 0 <= k < nextBufRow ==> trueBuffer[k] == old(trueBuffer)[k])
      ensures forall k :: nextBufRow <= k < nextBufStop ==> trueBuffer[k] == old(trueBuffer)[last]
      ensures forall k :: nextBufStop <= k < 3 * v ==> trueBuffer[k] == old(trueBuffer)[k]
    {
      var row := nextBufRow;
      while row < nextBufStop
        invariant nextBufRow <= row <= nextBufStop && Wired() && trueBuffer[last] == old(trueBuffer)[last]
        invariant forall k :: 0 <= k < nextBufRow ==> trueBuffer[k] == old(trueBuffer)[k]
        invariant forall k :: nextBufRow <= k < row ==> trueBuffer[k] == old(trueBuffer)[last]
        invariant forall k :: row <= k < 3 * v ==> trueBuffer[k] == old(trueBuffer)[k]
      {
        trueBuffer := trueBuffer[fakeBuffer[v + row] := trueBuffer[fakeBuffer[v + nextBufRow - 1]]];
        row := row + 1;
      }
    }

    // At the bottom of the image its last row goes on down to the stop.
    method PadBottom()
      requires Valid() && rowsToGo == 0 && nextBufRow < nextBufStop
      modifies this`trueBuffer, this`nextBufRow
      ensures Valid() && nextBufRow == nextBufStop
    {
      LastStored();
      StopInside();
      ghost var was := trueBuffer;
      var last := fakeBuffer[v + nextBufRow - 1];
      CopyDown(last);
      PaddedFilled(was, trueBuffer, nextBufRow, nextBufStop, origin);
      hide Seen, Placed, FilledWith;
      nextBufRow := nextBufStop;
    }

    lemma PaddedFilled(was: seq<Row>, now: seq<Row>, next: nat, stop: nat, first: nat)
      requires |was| == |now| == 3 * v && next <= stop <= 3 * v && 1 <= |image| <= first + next && FilledWith(was, next, first)
      requires forall k :: 0 <= k < next ==> now[k] == was[k]
      requires forall k :: next <= k < stop ==> now[k] == image[|image| - 1]
      requires forall k :: stop <= k < 3 * v ==> now[k] == was[k]
      ensures FilledWith(now, stop, first)
    {
    }

    // When the whole image has been read, its last row is the one stored last, if need be at the end of the buffer.
    lemma LastStored()
      requires Valid() && rowsToGo == 0
      ensures 0 <= v + nextBufRow - 1 < 5 * v && trueBuffer[fakeBuffer[v + nextBufRow - 1]] == image[|image| - 1]
      ensures fakeBuffer[v + nextBufRow - 1] < nextBufRow || (nextBufRow == 0 && nextBufStop <= fakeBuffer[v + nextBufRow - 1])
    {
      if nextBufRow == 0 {
        assert origin > 0;
        assert trueBuffer[3 * v - 1] == RowFor(origin + (3 * v - 1) - 3 * v);
      } else {
        assert trueBuffer[nextBufRow - 1] == RowFor(origin + (nextBufRow - 1));
      }
    }

    // What the downsampler sees: the row group with the ones above and below it.
    method TakeWindow() returns (window: seq<Row>)
      requires Valid() && nextBufRow == nextBufStop
      ensures window == Around(image, Times(|log|, v), v, |image| - 1)
    {
      var buffer, pointers, start := trueBuffer, fakeBuffer, thisRowGroup;
      PointersInside();
      window := seq(3 * v, i requires 0 <= i < 3 * v && start + i < |pointers| && pointers[start + i] < |buffer| => buffer[pointers[start + i]]);
      WindowTrue(window);
    }

    // Downsampling of a row group, and the move to the next one.
    method Downsample()
      requires Valid() && nextBufRow == nextBufStop
      modifies this`log, this`thisRowGroup, this`nextBufRow, this`nextBufStop, this`origin
      ensures Valid() && |log| == |old(log)| + 1 && old(log) <= log && nextBufRow < nextBufStop
    {
      var window := TakeWindow();
      TimesNext(|log|, v);
      hide Times, Wired, Around, RowFor;
      log := log + [window];
      thisRowGroup := thisRowGroup + v;
      if thisRowGroup >= 3 * v {
        thisRowGroup := 0;
      }
      if nextBufRow >= 3 * v {
        nextBufRow := 0;
        origin := origin + 3 * v;
      }
      nextBufStop := nextBufRow + v;
    }

    lemma PointersInside()
      requires Valid()
      ensures thisRowGroup + 3 * v <= |fakeBuffer| && forall k :: 0 <= k < |fakeBuffer| ==> fakeBuffer[k] < |trueBuffer|
    {
    }

    lemma WindowTrue(window: seq<Row>)
      requires Valid() && nextBufRow == nextBufStop && |window| == 3 * v
      requires forall i :: 0 <= i < 3 * v ==> window[i] == trueBuffer[fakeBuffer[thisRowGroup + i]]
      ensures window == Around(image, Times(|log|, v), v, |image| - 1)
    {
      var start := Times(|log|, v);
      hide Times, Seen;
      forall i | 0 <= i < 3 * v
        ensures window[i] == image[Clamped(start - v + i, |image| - 1)]
      {
        var k := fakeBuffer[thisRowGroup + i];
        if k < nextBufRow {
          assert trueBuffer[k] == RowFor(origin + k);
        } else {
          assert trueBuffer[k] == RowFor(origin + k - 3 * v);
        }
      }
    }

    // pre_process_context: inRowsAvail more rows are offered, and outRowGroupsAvail row groups wanted.
    method PreProcess(inRowsAvail: nat, outRowGroupsAvail: nat) returns (inRowCtr: nat, outRowGroupCtr: nat)
      requires Valid() && nextBufRow < nextBufStop && inRowsAvail <= rowsToGo
      modifies this
      ensures Valid() && nextBufRow < nextBufStop && old(log) <= log && |log| == |old(log)| + outRowGroupCtr && outRowGroupCtr <= outRowGroupsAvail
      ensures inRowCtr <= inRowsAvail && rowsToGo == old(rowsToGo) - inRowCtr
      ensures outRowGroupCtr == outRowGroupsAvail || (inRowCtr == inRowsAvail && rowsToGo > 0)
    {
      hide Wired, Placed, Filled, Seen;
      inRowCtr, outRowGroupCtr := 0, 0;
      while outRowGroupCtr < outRowGroupsAvail
        invariant Valid() && old(log) <= log && |log| == |old(log)| + outRowGroupCtr && outRowGroupCtr <= outRowGroupsAvail
        invariant inRowCtr <= inRowsAvail && rowsToGo == old(rowsToGo) - inRowCtr
        invariant nextBufRow < nextBufStop
        decreases outRowGroupsAvail - outRowGroupCtr, inRowsAvail - inRowCtr
      {
        if inRowCtr < inRowsAvail {
          var numrows := nextBufStop - nextBufRow;
          numrows := if numrows <= inRowsAvail - inRowCtr then numrows else inRowsAvail - inRowCtr;
          Convert(numrows);
          inRowCtr := inRowCtr + numrows;
        } else {
          if rowsToGo != 0 {
            break;
          }
          if nextBufRow < nextBufStop {
            PadBottom();
          }
        }
        if nextBufRow == nextBufStop {
          Downsample();
          outRowGroupCtr := outRowGroupCtr + 1;
        }
      }
    }
  }
}
