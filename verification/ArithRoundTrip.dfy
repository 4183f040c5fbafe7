// Any sequence of decisions through the arithmetic coder and back.
module ArithRoundTrip {
  import opened Numbers
  import opened ArithInterval
  import opened ArithCode
  import opened ArithEncoder
  import opened ArithDecoder

  function Bins(ds: seq<Decision>): (bins: seq<nat>)
    ensures |bins| == |ds|
  {
    seq(|ds|, i requires 0 <= i < |ds| => ds[i].st)
  }

  function Bits(ds: seq<Decision>): (bits: seq<Bit>)
    ensures |bits| == |ds|
  {
    seq(|ds|, i requires 0 <= i < |ds| => ds[i].bit)
  }

  // The ideal coder after the decisions ds, from fresh statistics.
  ghost function After(ds: seq<Decision>): Coder
    requires InArea(ds, AREA_SIZE)
  {
    Run(Coder(START, FreshStats()), ds)
  }

  lemma AfterOne(ds: seq<Decision>, i: nat)
    requires InArea(ds, AREA_SIZE) && i < |ds|
    ensures After(ds[..i + 1]) == Step(After(ds[..i]), ds[i])
  {
    hide Step, FreshStats;
    assert ds[..i + 1] == ds[..i] + [ds[i]];
    RunConcat(Coder(START, FreshStats()), ds[..i], [ds[i]]);
    RunOne(After(ds[..i]), ds[i]);
  }

  // arith_encode for each decision, then finish_pass.
  method EncodeDecisions(ds: seq<Decision>) returns (bytes: seq<Byte>, stats: seq<Byte>)
    requires InArea(ds, AREA_SIZE)
    ensures Segment(bytes, ds) && stats == After(ds).mem
  {
    hide Encoder.Traced, Step, FreshStats;
    var e := new Encoder(0);
    var i := 0;
    while i < |ds|
      invariant 0 <= i <= |ds| && fresh(e) && fresh(e.stats)
      invariant e.Traced() && e.log == ds[..i] && e.origin == FreshStats() && e.before == []
    {
      InStats(e);
      e.Put(ds[i].st, ds[i].bit);
      assert ds[..i + 1] == ds[..i] + [ds[i]];
      i := i + 1;
    }
    assert ds[..i] == ds;
    Coded(e, ds);
    stats := e.stats[..];
    e.Finish();
    bytes := e.out;
    assert bytes[0..] == bytes;
  }

  lemma InStats(e: Encoder)
    requires e.Traced()
    ensures e.stats.Length == AREA_SIZE
  {
  }

  lemma Coded(e: Encoder, ds: seq<Decision>)
    requires e.Traced() && e.log == ds && e.origin == FreshStats() && InArea(ds, AREA_SIZE)
    ensures e.stats[..] == After(ds).mem
  {
  }

  // One decision: the coded bit comes out, and the statistics take the step the encoder's took.
  method DecodeOne(d: Decoder, st: nat, ghost ds: seq<Decision>) returns (ok: bool, bit: Bit)
    requires d.Valid() && st < d.stats.Length
    modifies d, d.stats
    ensures ok ==> d.Valid()
    ensures old(d.InSync(ds)) && ds != [] && ds[0].st == st ==>
      ok && bit == ds[0].bit && d.InSync(ds[1..]) && d.State() == Step(old(d.State()), ds[0])
  {
    hide Step, Decoder.Valid;
    ghost var s := d.State();
    ok, bit := d.Decode(st);
    if old(d.InSync(ds)) && ds != [] && ds[0].st == st {
      Decodable(d.code, s, ds[0], ds[1..], bit);
    }
  }

  // The input starts with a segment that codes ds for these bins, and a marker ends it.
  ghost predicate Carries(input: seq<Byte>, bins: seq<nat>, ds: seq<Decision>) {
    bins == Bins(ds) && exists bytes, marker: Byte, after ::
      0 < marker < 0xFF && Segment(bytes, ds) && input == bytes + [0xFF, marker] + after
  }

  // The decoder has gone through the first i decisions.
  ghost predicate At(d: Decoder, ds: seq<Decision>, i: nat)
    requires d.Valid() && i <= |ds|
    reads d, d.stats
  {
    InArea(ds, AREA_SIZE) && d.InSync(ds[i..]) && d.State() == After(ds[..i])
  }

  lemma AtStart(d: Decoder, bins: seq<nat>, ds: seq<Decision>)
    requires d.AtStart() && d.pos == 0 && Carries(d.input, bins, ds)
    ensures d.Valid() && At(d, ds, 0)
  {
    hide Decoder.Valid, Decoder.InSync;
    var bytes, marker: Byte, after :| 0 < marker < 0xFF && Segment(bytes, ds) && d.input == bytes + [0xFF, marker] + after;
    assert d.input[0..] == d.input && ds[0..] == ds && ds[..0] == [];
    d.Synchronized(bytes, marker, after, ds);
  }

  // arith_decode for each bin: the bits that were coded come back, and the statistics end up the same.
  method DecodeDecisions(bins: seq<nat>, input: seq<Byte>, ghost ds: seq<Decision>)
    returns (ok: bool, bits: seq<Bit>, stats: seq<Byte>)
    requires forall i :: 0 <= i < |bins| ==> bins[i] < AREA_SIZE
    ensures Carries(input, bins, ds) ==> ok && bits == Bits(ds) && InArea(ds, AREA_SIZE) && stats == After(ds).mem
  {
    hide Decoder.Valid, Carries, Step, After, InArea;
    var d := new Decoder(input, 0);
    ghost var sync := Carries(input, bins, ds);
    if sync { AtStart(d, bins, ds); SameBins(input, bins, ds); }
    bits := [];
    while |bits| < |bins|
      invariant fresh(d) && fresh(d.stats) && d.Valid() && |bits| <= |bins|
      invariant sync ==> bits == Bits(ds)[..|bits|] && At(d, ds, |bits|)
    {
      ghost var i, rest := |bits|, if sync then ds[|bits|..] else [];
      if sync {
        assert rest[0] == ds[i] && rest[1..] == ds[i + 1..];
        AfterOne(ds, i);
      }
      var bit;
      ok, bit := DecodeOne(d, bins[|bits|], rest);
      if !ok {
        stats := [];
        return;
      }
      bits := bits + [bit];
    }
    ok := true;
    stats := d.stats[..];
    if sync { assert ds[..|ds|] == ds; }
  }

  lemma SameBins(input: seq<Byte>, bins: seq<nat>, ds: seq<Decision>)
    requires Carries(input, bins, ds)
    ensures bins == Bins(ds)
  {
  }

  // Section D.1 and D.2 of ITU-T T.81 undone: whatever was coded comes back, in front of any marker.
  method RoundTrip(ds: seq<Decision>, marker: Byte, after: seq<Byte>) returns (bits: seq<Bit>, coderStats: seq<Byte>, decoderStats: seq<Byte>)
    requires InArea(ds, AREA_SIZE) && 0 < marker < 0xFF
    ensures bits == Bits(ds) && decoderStats == coderStats
  {
    hide Segment, After;
    var bytes;
    bytes, coderStats := EncodeDecisions(ds);
    var ok;
    assert Carries(bytes + [0xFF, marker] + after, Bins(ds), ds);
    ok, bits, decoderStats := DecodeDecisions(Bins(ds), bytes + [0xFF, marker] + after, ds);
  }
}
