// What colours the conversion from YCC gives.
module Colour {
  import opened Upsampling

  // sample_range_limit: the nearest value that a sample can have.
  ghost predicate Clamps(t: Conversion) {
    forall x: int :: t.limit(x) == if x < 0 then 0 else if x > 255 then 255 else x
  }

  // Without colour a pixel is grey.
  lemma Grey(t: Conversion, y: Sample)
    requires GoodTables(t) && Clamps(t)
    ensures Rgb(t, y, 128, 128) == Pixel(y, y, y)
  {
  }

  // Red depends on Cr alone and does not fall with it, blue on Cb alone; green falls with either.
  lemma Shades(t: Conversion, y: Sample, cb: Sample, cr: Sample, cb1: Sample, cr1: Sample)
    requires GoodTables(t) && Clamps(t)
    ensures cr <= cr1 ==> Rgb(t, y, cb, cr).red <= Rgb(t, y, cb1, cr1).red
    ensures cb <= cb1 ==> Rgb(t, y, cb, cr).blue <= Rgb(t, y, cb1, cr1).blue
    ensures cb <= cb1 && cr <= cr1 ==> Rgb(t, y, cb, cr).green >= Rgb(t, y, cb1, cr1).green
  {
  }

  // A brighter pixel is brighter in each colour.
  lemma Brighter(t: Conversion, y: Sample, y1: Sample, cb: Sample, cr: Sample)
    requires GoodTables(t) && Clamps(t) && y <= y1
    ensures var p, q := Rgb(t, y, cb, cr), Rgb(t, y1, cb, cr); p.red <= q.red && p.green <= q.green && p.blue <= q.blue
  {
  }

  // s is within 0.51 of the value r, taken into the range of a sample.
  ghost predicate Nearest(s: Sample, r: real) {
    if r < 0.0 then s == 0 else if r > 255.0 then s == 255 else -0.51 <= s as real - r <= 0.51
  }

  // The three colours are those of the equations of the JFIF standard, rounded.
  lemma Equations(t: Conversion, y: Sample, cb: Sample, cr: Sample)
    requires GoodTables(t) && Clamps(t)
    ensures Nearest(Rgb(t, y, cb, cr).red, y as real + 1.40200 * (cr - 128) as real)
    ensures Nearest(Rgb(t, y, cb, cr).green, y as real - 0.34414 * (cb - 128) as real - 0.71414 * (cr - 128) as real)
    ensures Nearest(Rgb(t, y, cb, cr).blue, y as real + 1.77200 * (cb - 128) as real)
  {
    Rounded(91881 * (cr - 128) + ONE_HALF, 1.40200 * (cr - 128) as real);
    Rounded(t.cbG[cb] + t.crG[cr], -0.34414 * (cb - 128) as real - 0.71414 * (cr - 128) as real);
    Rounded(116130 * (cb - 128) + ONE_HALF, 1.77200 * (cb - 128) as real);
  }

  // Adding one half and dropping the fraction.
  lemma Rounded(x: int, r: real)
    requires -650.0 <= (x - ONE_HALF) as real - 65536.0 * r <= 650.0
    ensures -0.51 <= (x / SCALE) as real - r <= 0.51
  {
    var q, m := x / SCALE, x % SCALE;
    assert x == SCALE * q + m;
  }
}
