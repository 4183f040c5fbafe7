// Upsampling and colour conversion: component by component and then pixel by pixel, or both at once.
module Upsampling {
  type Sample = x: int | 0 <= x < 256

  type SampleRow = seq<Sample>

  datatype Pixel = Pixel(red: Sample, green: Sample, blue: Sample)

  type PixelRow = seq<Pixel>

  // The conversion tables, and sample_range_limit, which takes any sum back into the range of a sample.
  datatype Conversion = Conversion(crR: seq<int>, cbB: seq<int>, crG: seq<int>, cbG: seq<int>, limit: int -> Sample)

  const SCALE := 0x10000
  const ONE_HALF := 0x8000

  ghost predicate GoodTables(t: Conversion) {
    && |t.crR| == |t.cbB| == |t.crG| == |t.cbG| == 256
    && forall i :: 0 <= i < 256 ==>
         && t.crR[i] == (91881 * (i - 128) + ONE_HALF) / SCALE && t.cbB[i] == (116130 * (i - 128) + ONE_HALF) / SCALE
         && t.crG[i] == -46802 * (i - 128) && t.cbG[i] == -22554 * (i - 128) + ONE_HALF
  }

  // build_ycc_rgb_table, the same in both files; RIGHT_SHIFT rounds down.
  method BuildYccRgbTable(limit: int -> Sample) returns (t: Conversion)
    ensures GoodTables(t) && t.limit == limit
  {
    var crR, cbB, crG, cbG := [], [], [], [];
    var i, x := 0, -128;
    while i <= 255
      invariant 0 <= i <= 256 && x == i - 128 && |crR| == |cbB| == |crG| == |cbG| == i
      invariant forall k :: 0 <= k < i ==> crR[k] == (91881 * (k - 128) + ONE_HALF) / SCALE && cbB[k] == (116130 * (k - 128) + ONE_HALF) / SCALE
      invariant forall k :: 0 <= k < i ==> crG[k] == -46802 * (k - 128) && cbG[k] == -22554 * (k - 128) + ONE_HALF
    {
      crR := crR + [(91881 * x + ONE_HALF) / SCALE];
      cbB := cbB + [(116130 * x + ONE_HALF) / SCALE];
      crG := crG + [-46802 * x];
      cbG := cbG + [-22554 * x + ONE_HALF];
      i, x := i + 1, x + 1;
    }
    t := Conversion(crR, cbB, crG, cbG, limit);
  }

  // One pixel, from its luminance and the colour of its pair.
  function Rgb(t: Conversion, y: Sample, cb: Sample, cr: Sample): Pixel
    requires GoodTables(t)
  {
    Pixel(t.limit(y + t.crR[cr]), t.limit(y + (t.cbG[cb] + t.crG[cr]) / SCALE), t.limit(y + t.cbB[cb]))
  }

  // A row of the picture: every colour sample counts for two pixels.
  function RowOf(t: Conversion, y: SampleRow, cb: SampleRow, cr: SampleRow, width: nat): (row: PixelRow)
    requires GoodTables(t) && width <= |y| && width <= 2 * |cb| && width <= 2 * |cr|
    ensures |row| == width && forall x :: 0 <= x < width ==> row[x] == Rgb(t, y[x], cb[x / 2], cr[x / 2])
  {
    seq(width, x requires 0 <= x < width => Rgb(t, y[x], cb[x / 2], cr[x / 2]))
  }

  // ----- the separate way -----

  // A row of h2v1_upsample, or of h2v2_upsample: it may come out one sample too long.
  method Expand(input: SampleRow, width: nat) returns (row: SampleRow)
    requires width <= 2 * |input|
    ensures width <= |row| <= width + 1 && forall x :: 0 <= x < |row| ==> x / 2 < |input| && row[x] == input[x / 2]
  {
    row := [];
    var inptr := 0;
    while |row| < width
      invariant |row| == 2 * inptr && inptr <= |input| && |row| <= width + 1
      invariant forall x :: 0 <= x < |row| ==> x / 2 < |input| && row[x] == input[x / 2]
    {
      var invalue := input[inptr];
      inptr := inptr + 1;
      row := row + [invalue];
      row := row + [invalue];
    }
  }

  // A row of ycc_rgb_convert
  method Convert(t: Conversion, y: SampleRow, cb: SampleRow, cr: SampleRow, width: nat) returns (row: PixelRow)
    requires GoodTables(t) && width <= |y| && width <= |cb| && width <= |cr|
    ensures |row| == width && forall x :: 0 <= x < width ==> row[x] == Rgb(t, y[x], cb[x], cr[x])
  {
    row := [];
    var col := 0;
    while col < width
      invariant 0 <= col <= width && |row| == col && forall x :: 0 <= x < col ==> row[x] == Rgb(t, y[x], cb[x], cr[x])
    {
      row := row + [Pixel(t.limit(y[col] + t.crR[cr[col]]),
                          t.limit(y[col] + (t.cbG[cb[col]] + t.crG[cr[col]]) / SCALE), t.limit(y[col] + t.cbB[cb[col]]))];
      col := col + 1;
    }
  }

  // ----- the merged way -----

  // What the colour of a pixel adds, shared by the pixels of a pair.
  datatype Chroma = Chroma(cred: int, cgreen: int, cblue: int)

  function ChromaOf(t: Conversion, cb: Sample, cr: Sample): Chroma
    requires GoodTables(t)
  {
    Chroma(t.crR[cr], (t.cbG[cb] + t.crG[cr]) / SCALE, t.cbB[cb])
  }

  function Shade(t: Conversion, y: Sample, c: Chroma): Pixel {
    Pixel(t.limit(y + c.cred), t.limit(y + c.cgreen), t.limit(y + c.cblue))
  }

  // Two pixels more that share their colour samples.
  lemma TwoMore(t: Conversion, y: SampleRow, cb: SampleRow, cr: SampleRow, i: nat)
    requires GoodTables(t) && 2 * i + 2 <= |y| && i < |cb| && i < |cr|
    ensures RowOf(t, y, cb, cr, 2 * i + 2) ==
      RowOf(t, y, cb, cr, 2 * i) + [Shade(t, y[2 * i], ChromaOf(t, cb[i], cr[i]))] + [Shade(t, y[2 * i + 1], ChromaOf(t, cb[i], cr[i]))]
  {
    hide GoodTables;
    assert (2 * i) / 2 == i && (2 * i + 1) / 2 == i;
  }

  // The last pixel of an odd row.
  lemma OneMore(t: Conversion, y: SampleRow, cb: SampleRow, cr: SampleRow, i: nat)
    requires GoodTables(t) && 2 * i + 1 <= |y| && i < |cb| && i < |cr|
    ensures RowOf(t, y, cb, cr, 2 * i + 1) == RowOf(t, y, cb, cr, 2 * i) + [Shade(t, y[2 * i], ChromaOf(t, cb[i], cr[i]))]
  {
    hide GoodTables;
    assert (2 * i) / 2 == i;
  }

  // h2v1_merged_upsample: two pixels for every colour sample, and one more if the width is odd.
  method MergedRow(t: Conversion, y: SampleRow, cb: SampleRow, cr: SampleRow, width: nat) returns (row: PixelRow)
    requires GoodTables(t) && width <= |y| && width <= 2 * |cb| && width <= 2 * |cr|
    ensures row == RowOf(t, y, cb, cr, width)
  {
    row := [];
    var i, col := 0, width / 2;
    while col > 0
      invariant 0 <= col <= width / 2 && i == width / 2 - col && row == RowOf(t, y, cb, cr, 2 * i)
    {
      TwoMore(t, y, cb, cr, i);
      hide RowOf, Shade, ChromaOf;
      var chroma := ChromaOf(t, cb[i], cr[i]);
      row := row + [Shade(t, y[2 * i], chroma)];
      row := row + [Shade(t, y[2 * i + 1], chroma)];
      i, col := i + 1, col - 1;
    }
    if width % 2 == 1 {
      OneMore(t, y, cb, cr, i);
      row := row + [Shade(t, y[2 * i], ChromaOf(t, cb[i], cr[i]))];
    }
  }

  // h2v2_merged_upsample: the same for two rows at once.
  method MergedPair(t: Conversion, y0: SampleRow, y1: SampleRow, cb: SampleRow, cr: SampleRow, width: nat) returns (row0: PixelRow, row1: PixelRow)
    requires GoodTables(t) && width <= |y0| && width <= |y1| && width <= 2 * |cb| && width <= 2 * |cr|
    ensures row0 == RowOf(t, y0, cb, cr, width) && row1 == RowOf(t, y1, cb, cr, width)
  {
    row0, row1 := [], [];
    var i, col := 0, width / 2;
    while col > 0
      invariant 0 <= col <= width / 2 && i == width / 2 - col
      invariant row0 == RowOf(t, y0, cb, cr, 2 * i) && row1 == RowOf(t, y1, cb, cr, 2 * i)
    {
      TwoMore(t, y0, cb, cr, i);
      TwoMore(t, y1, cb, cr, i);
      hide RowOf, Shade, ChromaOf;
      var chroma := ChromaOf(t, cb[i], cr[i]);
      row0 := row0 + [Shade(t, y0[2 * i], chroma)];
      row0 := row0 + [Shade(t, y0[2 * i + 1], chroma)];
      row1 := row1 + [Shade(t, y1[2 * i], chroma)];
      row1 := row1 + [Shade(t, y1[2 * i + 1], chroma)];
      i, col := i + 1, col - 1;
    }
    if width % 2 == 1 {
      OneMore(t, y0, cb, cr, i);
      OneMore(t, y1, cb, cr, i);
      var chroma := ChromaOf(t, cb[i], cr[i]);
      row0 := row0 + [Shade(t, y0[2 * i], chroma)];
      row1 := row1 + [Shade(t, y1[2 * i], chroma)];
    }
  }

  // ----- rows of a picture -----

  // v luminance rows to a row group, with one row of each colour.
  datatype Picture = Picture(v: nat, width: nat, height: nat, y: seq<SampleRow>, cb: seq<SampleRow>, cr: seq<SampleRow>)

  ghost predicate GoodPicture(p: Picture) {
    && 1 <= p.v <= 2 && |p.y| == p.v * |p.cb| && |p.cb| == |p.cr| && p.height <= |p.y|
    && (forall k :: 0 <= k < |p.y| ==> p.width <= |p.y[k]|)
    && forall k :: 0 <= k < |p.cb| ==> p.width <= 2 * |p.cb[k]| && p.width <= 2 * |p.cr[k]|
  }

  function Row(t: Conversion, p: Picture, k: nat): PixelRow
    requires GoodTables(t) && GoodPicture(p) && k < |p.y|
  {
    RowOf(t, p.y[k], p.cb[k / p.v], p.cr[k / p.v], p.width)
  }

  function Rows(t: Conversion, p: Picture, n: nat): (rows: seq<PixelRow>)
    requires GoodTables(t) && GoodPicture(p) && n <= |p.y|
    ensures |rows| == n && forall k :: 0 <= k < n ==> rows[k] == Row(t, p, k)
  {
    seq(n, k requires 0 <= k < n => Row(t, p, k))
  }

  // ----- the separate controller -----

  class Separate {
    var colorBuf: (seq<SampleRow>, seq<SampleRow>, seq<SampleRow>)
    var nextRowOut: nat
    var rowsToGo: nat
    var inRowGroupCtr: nat
    var out: seq<PixelRow>

    // start_pass_upsample
    constructor (t: Conversion, p: Picture)
      requires GoodTables(t) && GoodPicture(p)
      ensures Valid(t, p) && out == [] && rowsToGo == p.height
    {
      colorBuf := ([], [], []);
      nextRowOut, rowsToGo, inRowGroupCtr, out := p.v, p.height, 0, [];
    }

    // The conversion buffer holds the row group, its colour rows expanded.
    ghost predicate Buffered(p: Picture)
      requires GoodPicture(p)
      reads this
    {
      && inRowGroupCtr < |p.cb| && |colorBuf.0| == |colorBuf.1| == |colorBuf.2| == p.v
      && forall k :: 0 <= k < p.v ==>
           && p.v * inRowGroupCtr + k < |p.y| && colorBuf.0[k] == p.y[p.v * inRowGroupCtr + k]
           && p.width <= |colorBuf.1[k]| && p.width <= |colorBuf.2[k]|
           && forall x :: 0 <= x < p.width ==> colorBuf.1[k][x] == p.cb[inRowGroupCtr][x / 2] && colorBuf.2[k][x] == p.cr[inRowGroupCtr][x / 2]
    }

    ghost predicate Valid(t: Conversion, p: Picture)
      requires GoodTables(t) && GoodPicture(p)
      reads this
    {
      && |out| <= p.height && rowsToGo == p.height - |out| && out == Rows(t, p, |out|)
      && (nextRowOut < p.v ==> Buffered(p) && |out| == p.v * inRowGroupCtr + nextRowOut)
      && (nextRowOut >= p.v ==> |out| == p.v * inRowGroupCtr)
    }

    // The row group goes into the conversion buffer, each component for itself.
    method FillBuffer(p: Picture)
      requires GoodPicture(p) && inRowGroupCtr < |p.cb|
      modifies this`colorBuf, this`nextRowOut
      ensures Buffered(p) && nextRowOut == 0
    {
      var g := inRowGroupCtr;
      var cb := Expand(p.cb[g], p.width);
      var cr := Expand(p.cr[g], p.width);
      assert forall x :: 0 <= x < p.width ==> cb[x] == p.cb[g][x / 2] && cr[x] == p.cr[g][x / 2];
      if p.v == 1 {
        colorBuf := ([p.y[g]], [cb], [cr]);
      } else {
        colorBuf := ([p.y[2 * g], p.y[2 * g + 1]], [cb, cb], [cr, cr]);
      }
      nextRowOut := 0;
    }

    lemma BufferedRow(t: Conversion, p: Picture, k: nat, row: PixelRow)
      requires GoodTables(t) && GoodPicture(p) && Buffered(p) && k < p.v && |row| == p.width
      requires forall x :: 0 <= x < p.width ==> row[x] == Rgb(t, colorBuf.0[k][x], colorBuf.1[k][x], colorBuf.2[k][x])
      ensures p.v * inRowGroupCtr + k < |p.y| && row == Row(t, p, p.v * inRowGroupCtr + k)
    {
      hide GoodTables, Rgb;
      assert (p.v * inRowGroupCtr + k) / p.v == inRowGroupCtr;
    }

    // ycc_rgb_convert of rows out of the conversion buffer.
    method EmitRows(t: Conversion, p: Picture, numRows: nat)
      requires GoodTables(t) && GoodPicture(p) && Buffered(p) && nextRowOut + numRows <= p.v
      requires |out| == p.v * inRowGroupCtr + nextRowOut && out == Rows(t, p, |out|)
      modifies this`out
      ensures |out| == |old(out)| + numRows && old(out) <= out && |out| <= |p.y| && out == Rows(t, p, |out|)
    {
      var n := 0;
      while n < numRows
        invariant 0 <= n <= numRows && |out| == |old(out)| + n && old(out) <= out && |out| <= |p.y| && out == Rows(t, p, |out|)
      {
        assert p.width <= |p.y[p.v * inRowGroupCtr + (nextRowOut + n)]|;
        var row := Convert(t, colorBuf.0[nextRowOut + n], colorBuf.1[nextRowOut + n], colorBuf.2[nextRowOut + n], p.width);
        BufferedRow(t, p, nextRowOut + n, row);
        hide Row;
        assert Rows(t, p, |out| + 1) == Rows(t, p, |out|) + [row];
        out := out + [row];
        n := n + 1;
      }
    }

    // sep_upsample
    method Upsample(t: Conversion, p: Picture, outRowsAvail: nat)
      requires GoodTables(t) && GoodPicture(p) && Valid(t, p) && rowsToGo > 0 && |out| < outRowsAvail
      modifies this
      ensures Valid(t, p) && old(out) <= out && |old(out)| < |out| <= outRowsAvail
    {
      hide Row, GoodTables;
      if nextRowOut >= p.v {
        GroupThere(p, inRowGroupCtr, |out|);
        FillBuffer(p);
      }
      var numRows := p.v - nextRowOut;
      numRows := if numRows > rowsToGo then rowsToGo else numRows;
      numRows := if numRows > outRowsAvail - |out| then outRowsAvail - |out| else numRows;
      EmitRows(t, p, numRows);
      rowsToGo := rowsToGo - numRows;
      nextRowOut := nextRowOut + numRows;
      if nextRowOut >= p.v {
        inRowGroupCtr := inRowGroupCtr + 1;
      }
    }
  }

  // The rows of a row group of two.
  method PairOf(t: Conversion, p: Picture, g: nat) returns (row0: PixelRow, row1: PixelRow)
    requires GoodTables(t) && GoodPicture(p) && p.v == 2 && g < |p.cb|
    ensures row0 == Row(t, p, 2 * g) && row1 == Row(t, p, 2 * g + 1)
  {
    hide GoodTables;
    assert p.width <= |p.y[2 * g]| && p.width <= |p.y[2 * g + 1]| && (2 * g) / 2 == g && (2 * g + 1) / 2 == g;
    row0, row1 := MergedPair(t, p.y[2 * g], p.y[2 * g + 1], p.cb[g], p.cr[g], p.width);
  }

  lemma GroupThere(p: Picture, g: nat, done: nat)
    requires GoodPicture(p) && done == p.v * g < p.height
    ensures g < |p.cb|
  {
  }

  // ----- the merged controller -----

  class Merged {
    var spareRow: PixelRow
    var spareFull: bool
    var rowsToGo: nat
    var inRowGroupCtr: nat
    var out: seq<PixelRow>

    // start_pass_merged_upsample
    constructor (t: Conversion, p: Picture)
      requires GoodTables(t) && GoodPicture(p)
      ensures Valid(t, p) && out == []
    {
      spareRow, spareFull, rowsToGo, inRowGroupCtr, out := [], false, p.height, 0, [];
    }

    // The spare row is the second one of its row group, unless the image has no such row.
    ghost predicate Valid(t: Conversion, p: Picture)
      requires GoodTables(t) && GoodPicture(p)
      reads this
    {
      && |out| <= p.height && rowsToGo == p.height - |out| && out == Rows(t, p, |out|)
      && if spareFull then p.v == 2 && |out| == 2 * inRowGroupCtr + 1 && |out| < |p.y| && spareRow == Row(t, p, |out|)
         else |out| == p.v * inRowGroupCtr || rowsToGo == 0
    }

    // The row that was saved.
    method EmitSpare(t: Conversion, p: Picture)
      requires GoodTables(t) && GoodPicture(p) && p.v == 2 && Valid(t, p) && rowsToGo > 0 && spareFull
      modifies this
      ensures Valid(t, p) && old(out) <= out && |out| == |old(out)| + 1
    {
      hide GoodTables, GoodPicture, Row, Rows;
      NextRow(t, p, |out|);
      out := out + [spareRow];
      spareFull := false;
      rowsToGo := rowsToGo - 1;
      inRowGroupCtr := inRowGroupCtr + 1;
    }

    // Both rows of a row group; the second one is saved if there is no room for it, or no such row in the image.
    method EmitPair(t: Conversion, p: Picture, numRows: nat)
      requires GoodTables(t) && GoodPicture(p) && p.v == 2 && Valid(t, p) && !spareFull && 1 <= numRows <= 2 && numRows <= rowsToGo
      modifies this
      ensures Valid(t, p) && old(out) <= out && |out| == |old(out)| + numRows
    {
      GroupThere(p, inRowGroupCtr, |out|);
      var row0, row1 := PairOf(t, p, inRowGroupCtr);
      hide GoodTables, GoodPicture, Row, Rows;
      NextRow(t, p, |out|);
      out := out + [row0];
      rowsToGo := rowsToGo - numRows;
      if numRows > 1 {
        NextRow(t, p, |out|);
        out := out + [row1];
        inRowGroupCtr := inRowGroupCtr + 1;
      } else {
        spareRow := row1;
        spareFull := true;
      }
    }

    // merged_2v_upsample
    method Upsample2v(t: Conversion, p: Picture, outRowsAvail: nat)
      requires GoodTables(t) && GoodPicture(p) && p.v == 2 && Valid(t, p) && rowsToGo > 0 && |out| < outRowsAvail
      modifies this
      ensures Valid(t, p) && old(out) <= out && |old(out)| < |out| <= outRowsAvail
    {
      hide Merged.Valid, GoodTables, GoodPicture;
      if spareFull {
        EmitSpare(t, p);
      } else {
        var numRows := if rowsToGo < 2 then rowsToGo else 2;
        numRows := if numRows > outRowsAvail - |out| then outRowsAvail - |out| else numRows;
        EmitPair(t, p, numRows);
      }
    }

    // merged_1v_upsample
    method Upsample1v(t: Conversion, p: Picture)
      requires GoodTables(t) && GoodPicture(p) && p.v == 1 && Valid(t, p) && rowsToGo > 0
      modifies this
      ensures Valid(t, p) && old(out) <= out && |out| == |old(out)| + 1
    {
      hide GoodTables;
      GroupThere(p, inRowGroupCtr, |out|);
      var g := inRowGroupCtr;
      var row := MergedRow(t, p.y[g], p.cb[g], p.cr[g], p.width);
      assert row == Row(t, p, g);
      hide Row;
      NextRow(t, p, |out|);
      out := out + [row];
      rowsToGo := rowsToGo - 1;
      inRowGroupCtr := inRowGroupCtr + 1;
    }
  }

  lemma NextRow(t: Conversion, p: Picture, n: nat)
    requires GoodTables(t) && GoodPicture(p) && n < |p.y|
    ensures Rows(t, p, n + 1) == Rows(t, p, n) + [Row(t, p, n)]
  {
    hide Row, GoodTables;
  }

  // ----- the same rows, however the caller asks for them -----

  // What room there is at the next call: at least one row, and no bound in the end.
  function Room(asks: seq<nat>, done: nat, height: nat): nat { if asks == [] then height else if asks[0] > done then asks[0] else done + 1 }

  method AllSeparate(t: Conversion, p: Picture, asks: seq<nat>) returns (rows: seq<PixelRow>)
    requires GoodTables(t) && GoodPicture(p)
    ensures rows == Rows(t, p, p.height)
  {
    hide GoodTables, Rows;
    var u := new Separate(t, p);
    var left := asks;
    while u.rowsToGo > 0
      invariant fresh(u) && u.Valid(t, p)
      decreases p.height - |u.out|
    {
      u.Upsample(t, p, Room(left, |u.out|, p.height));
      left := if left == [] then [] else left[1..];
    }
    return u.out;
  }

  method AllMerged(t: Conversion, p: Picture, asks: seq<nat>) returns (rows: seq<PixelRow>)
    requires GoodTables(t) && GoodPicture(p)
    ensures rows == Rows(t, p, p.height)
  {
    hide GoodTables, Rows;
    var u := new Merged(t, p);
    var left := asks;
    while u.rowsToGo > 0
      invariant fresh(u) && u.Valid(t, p)
      decreases p.height - |u.out|
    {
      if p.v == 2 {
        u.Upsample2v(t, p, Room(left, |u.out|, p.height));
      } else {
        u.Upsample1v(t, p);
      }
      left := if left == [] then [] else left[1..];
    }
    return u.out;
  }
}
