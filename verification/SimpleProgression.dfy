// The recommended progressive script of jcparam.c: space is computed first, then filled through an advancing index.
module SimpleProgression {
  import opened ScanScript

  function For(ci: int, ss: int, se: int, ah: int, al: int): ScanInfo {
    ScanInfo([ci], ss, se, ah, al)
  }

  function UpTo(n: nat): (s: seq<int>)
    ensures |s| == n
  {
    seq(n, i => i)
  }

  // ----- the script as a value -----

  function Each(n: nat, ss: int, se: int, ah: int, al: int): (r: seq<ScanInfo>)
    ensures |r| == n
  {
    seq(n, ci => For(ci, ss, se, ah, al))
  }

  function Dc(n: nat, ah: int, al: int): (r: seq<ScanInfo>)
    ensures |r| == if n <= MAX_COMPS_IN_SCAN then 1 else n
  {
    if n <= MAX_COMPS_IN_SCAN then [ScanInfo(UpTo(n), 0, 0, ah, al)] else Each(n, 0, 0, ah, al)
  }

  // First pass over all components, then one bit more for the AC coefficients, then the last bit of everything.
  function AllPurpose(n: nat): seq<ScanInfo> {
    Dc(n, 0, 1) + Each(n, 1, 5, 0, 2) + Each(n, 6, 63, 0, 2) + Each(n, 1, 63, 2, 1) + Dc(n, 1, 0) + Each(n, 1, 63, 1, 0)
  }

  function YccScript(): seq<ScanInfo> {
    Dc(3, 0, 1) + [For(0, 1, 5, 0, 2)] + [For(2, 1, 63, 0, 1)] + [For(1, 1, 63, 0, 1)] + [For(0, 6, 63, 0, 2)]
    + [For(0, 1, 63, 2, 1)] + Dc(3, 1, 0) + [For(2, 1, 63, 1, 0)] + [For(1, 1, 63, 1, 0)] + [For(0, 1, 63, 1, 0)]
  }

  function Script(n: nat, ycc: bool): seq<ScanInfo> {
    if n == 3 && ycc then YccScript() else AllPurpose(n)
  }

  // Of a picture in YCC the DC coefficients come first, and then the low luminance coefficients; the last bit of luminance, which takes
  // the most room, comes last, after those of the colours.
  lemma YccOrder()
    ensures |YccScript()| == 10 && YccScript()[0] == ScanInfo([0, 1, 2], 0, 0, 0, 1) && YccScript()[1] == ScanInfo([0], 1, 5, 0, 2)
    ensures YccScript()[7..] == [ScanInfo([2], 1, 63, 1, 0), ScanInfo([1], 1, 63, 1, 0), ScanInfo([0], 1, 63, 1, 0)]
  {
    assert UpTo(3) == [0, 1, 2];
  }

  // ----- fill_a_scan, fill_scans, fill_dc_scans -----

  method FillAScan(space: array<ScanInfo>, at: nat, ci: int, ss: int, se: int, ah: int, al: int) returns (next: nat)
    requires at < space.Length
    modifies space
    ensures next == at + 1 && space[..next] == old(space[..at]) + [For(ci, ss, se, ah, al)]
  {
    space[at] := ScanInfo([ci], ss, se, ah, al);
    next := at + 1;
  }

  method FillScans(space: array<ScanInfo>, at: nat, n: nat, ss: int, se: int, ah: int, al: int) returns (next: nat)
    requires at + n <= space.Length
    modifies space
    ensures next == at + n && space[..next] == old(space[..at]) + Each(n, ss, se, ah, al)
  {
    next := at;
    for ci := 0 to n
      invariant next == at + ci && space[..next] == old(space[..at]) + Each(n, ss, se, ah, al)[..ci]
    {
      space[next] := ScanInfo([ci], ss, se, ah, al);
      next := next + 1;
    }
  }

  method FillDcScans(space: array<ScanInfo>, at: nat, n: nat, ah: int, al: int) returns (next: nat)
    requires at + |Dc(n, ah, al)| <= space.Length
    modifies space
    ensures next == at + |Dc(n, ah, al)| && space[..next] == old(space[..at]) + Dc(n, ah, al)
  {
    if n <= MAX_COMPS_IN_SCAN {
      var comps := [];
      for ci := 0 to n
        invariant comps == UpTo(n)[..ci]
      {
        comps := comps + [ci];
      }
      assert comps == UpTo(n);
      space[at] := ScanInfo(comps, 0, 0, ah, al);
      next := at + 1;
    } else {
      next := FillScans(space, at, n, 0, 0, ah, al);
    }
  }

  // The scan script fields of the compression object: script_space, kept between calls, and num_scans.
  class ScriptSpace {
    var space: array?<ScanInfo>
    var numScans: nat

    constructor ()
      ensures space == null
    {
      space, numScans := null, 0;
    }

    // jpeg_simple_progression: the scans written are exactly the ones there was room computed for.
    method SimpleProgression(n: nat, ycc: bool)
      modifies this, space
      ensures space != null && numScans <= space.Length && space[..numScans] == Script(n, ycc)
      ensures numScans == if n == 3 && ycc then 10 else if n > 4 then 6 * n else 2 + 4 * n
      ensures space == old(space) || fresh(space)
      ensures old(space) != null && old(space).Length >= numScans ==> space == old(space)
    {
      var nscans;
      if n == 3 && ycc {
        nscans := 10;
      } else if n > MAX_COMPS_IN_SCAN {
        nscans := 6 * n;
      } else {
        nscans := 2 + 4 * n;
      }
      if space == null || space.Length < nscans {
        var size := if nscans > 10 then nscans else 10;
        space := new ScanInfo[size](_ => ScanInfo([], 0, 0, 0, 0));
      }
      numScans := nscans;
      if n == 3 && ycc {
        FillYcc(space);
      } else {
        FillAllPurpose(space, n);
      }
    }
  }

  method FillYcc(space: array<ScanInfo>)
    requires space.Length >= 10
    modifies space
    ensures space[..10] == YccScript()
  {
    hide Dc, For;
    var at := FillDcScans(space, 0, 3, 0, 1);
    at := FillAScan(space, at, 0, 1, 5, 0, 2);
    at := FillAScan(space, at, 2, 1, 63, 0, 1);
    at := FillAScan(space, at, 1, 1, 63, 0, 1);
    at := FillAScan(space, at, 0, 6, 63, 0, 2);
    at := FillAScan(space, at, 0, 1, 63, 2, 1);
    at := FillDcScans(space, at, 3, 1, 0);
    at := FillAScan(space, at, 2, 1, 63, 1, 0);
    at := FillAScan(space, at, 1, 1, 63, 1, 0);
    at := FillAScan(space, at, 0, 1, 63, 1, 0);
  }

  method FillAllPurpose(space: array<ScanInfo>, n: nat)
    requires space.Length >= |AllPurpose(n)|
    modifies space
    ensures space[..|AllPurpose(n)|] == AllPurpose(n)
  {
    hide Dc, Each;
    var at := FillDcScans(space, 0, n, 0, 1);
    at := FillScans(space, at, n, 1, 5, 0, 2);
    at := FillScans(space, at, n, 6, 63, 0, 2);
    at := FillScans(space, at, n, 1, 63, 2, 1);
    at := FillDcScans(space, at, n, 1, 0);
    at := FillScans(space, at, n, 1, 63, 1, 0);
  }

  // ----- the script is legal and complete -----

  // How far a component has got: its DC coefficient, coefficients 1 to 5, and the rest.
  datatype Progress = Progress(dc: int, low: int, high: int)

  function Plane(p: Progress): (r: seq<int>)
    ensures |r| == 64
  {
    seq(64, k => if k == 0 then p.dc else if k <= 5 then p.low else p.high)
  }

  function Planes(ps: seq<Progress>): BitPos {
    seq(|ps|, c requires 0 <= c < |ps| => Plane(ps[c]))
  }

  ghost predicate Reaches(scans: seq<ScanInfo>, ps: seq<Progress>) {
    && GoodProgUpTo(|ps|, scans, |scans|)
    && PosAfter(|ps|, scans, |scans|) == Planes(ps)
  }

  lemma {:induction false} PosPrefix(n: nat, a: seq<ScanInfo>, b: seq<ScanInfo>, i: nat)
    requires i <= |a|
    ensures PosAfter(n, a + b, i) == PosAfter(n, a, i)
  {
    if i > 0 { PosPrefix(n, a, b, i - 1); }
  }

  lemma ReachOne(scans: seq<ScanInfo>, ps: seq<Progress>, s: ScanInfo, qs: seq<Progress>)
    requires Reaches(scans, ps) && |qs| == |ps|
    requires GoodProgScan(|ps|, Planes(ps), s) && After(|ps|, Planes(ps), s) == Planes(qs)
    ensures Reaches(scans + [s], qs)
  {
    hide GoodProgScan, After;
    var n, m, more := |ps|, |scans|, scans + [s];
    forall i | 0 <= i < m + 1
      ensures GoodProgScan(n, PosAfter(n, more, i), more[i])
    {
      PosPrefix(n, scans, [s], i);
    }
    PosPrefix(n, scans, [s], m);
  }

  // What a scan of one of the four bands does to a component.
  function Advance(p: Progress, ss: int, se: int, al: int): Progress {
    if ss == 0 then p.(dc := al)
    else if se == 5 then p.(low := al)
    else if ss == 6 then p.(high := al)
    else p.(low := al, high := al)
  }

  predicate Band(ss: int, se: int) {
    (ss, se) == (0, 0) || (ss, se) == (1, 5) || (ss, se) == (6, 63) || (ss, se) == (1, 63)
  }

  predicate Suits(level: int, ah: int, al: int) {
    if level < 0 then ah == 0 else ah == level && al == ah - 1
  }

  predicate Takes(p: Progress, ss: int, se: int, ah: int, al: int) {
    && Band(ss, se) && 0 <= ah <= 10 && 0 <= al <= 10
    && (ss == 0 ==> Suits(p.dc, ah, al))
    && (ss != 0 ==> p.dc >= 0)
    && (ss == 1 ==> Suits(p.low, ah, al))
    && (se == 63 ==> Suits(p.high, ah, al))
  }

  lemma TakesFollows(p: Progress, s: ScanInfo)
    requires Takes(p, s.ss, s.se, s.ah, s.al)
    ensures Follows(Plane(p), s) && Sent(Plane(p), s) == Plane(Advance(p, s.ss, s.se, s.al))
  {
  }

  lemma ReachFor(scans: seq<ScanInfo>, ps: seq<Progress>, c: nat, ss: int, se: int, ah: int, al: int)
    requires Reaches(scans, ps) && c < |ps| && Takes(ps[c], ss, se, ah, al)
    ensures Reaches(scans + [For(c, ss, se, ah, al)], ps[c := Advance(ps[c], ss, se, al)])
  {
    var s, qs := For(c, ss, se, ah, al), ps[c := Advance(ps[c], ss, se, al)];
    TakesFollows(ps[c], s);
    assert After(|ps|, Planes(ps), s) == Planes(qs) by {
      hide Sent, Plane;
    }
    ReachOne(scans, ps, s, qs);
  }

  // The first m components have had the scan.
  function Advanced(ps: seq<Progress>, m: nat, ss: int, se: int, al: int): (qs: seq<Progress>)
    ensures |qs| == |ps|
  {
    seq(|ps|, c requires 0 <= c < |ps| => if c < m then Advance(ps[c], ss, se, al) else ps[c])
  }

  lemma {:induction false} ReachEach(scans: seq<ScanInfo>, ps: seq<Progress>, m: nat, ss: int, se: int, ah: int, al: int)
    requires Reaches(scans, ps) && m <= |ps| && forall c :: 0 <= c < |ps| ==> Takes(ps[c], ss, se, ah, al)
    ensures Reaches(scans + Each(m, ss, se, ah, al), Advanced(ps, m, ss, se, al))
  {
    hide Reaches, Takes;
    if m == 0 {
      assert Advanced(ps, 0, ss, se, al) == ps && scans + Each(0, ss, se, ah, al) == scans;
    } else {
      ReachEach(scans, ps, m - 1, ss, se, ah, al);
      ReachFor(scans + Each(m - 1, ss, se, ah, al), Advanced(ps, m - 1, ss, se, al), m - 1, ss, se, ah, al);
      assert scans + Each(m, ss, se, ah, al) == scans + Each(m - 1, ss, se, ah, al) + [For(m - 1, ss, se, ah, al)];
      assert Advanced(ps, m, ss, se, al) == Advanced(ps, m - 1, ss, se, al)[m - 1 := Advance(ps[m - 1], ss, se, al)];
    }
  }

  // One interleaved scan of the DC coefficients.
  lemma DcScanTaken(ps: seq<Progress>, ah: int, al: int)
    requires 0 < |ps| <= MAX_COMPS_IN_SCAN && forall c :: 0 <= c < |ps| ==> Takes(ps[c], 0, 0, ah, al)
    ensures GoodProgScan(|ps|, Planes(ps), ScanInfo(UpTo(|ps|), 0, 0, ah, al))
    ensures After(|ps|, Planes(ps), ScanInfo(UpTo(|ps|), 0, 0, ah, al)) == Planes(Advanced(ps, |ps|, 0, 0, al))
  {
    hide Sent, Plane, Follows;
    var n, qs, s := |ps|, Advanced(ps, |ps|, 0, 0, al), ScanInfo(UpTo(|ps|), 0, 0, ah, al);
    assert GoodComps(n, s) && GoodBand(s) by { assert Takes(ps[0], 0, 0, ah, al); }
    forall c | 0 <= c < n
      ensures c in s.comps && Follows(Plane(ps[c]), s) && Sent(Plane(ps[c]), s) == Plane(qs[c])
    {
      assert s.comps[c] == c;
      TakesFollows(ps[c], s);
    }
  }

  lemma ReachDc(scans: seq<ScanInfo>, ps: seq<Progress>, ah: int, al: int)
    requires Reaches(scans, ps) && ps != [] && forall c :: 0 <= c < |ps| ==> Takes(ps[c], 0, 0, ah, al)
    ensures Reaches(scans + Dc(|ps|, ah, al), Advanced(ps, |ps|, 0, 0, al))
  {
    hide GoodProgScan, After, Reaches, Takes, Planes, Advanced;
    var n := |ps|;
    if n <= MAX_COMPS_IN_SCAN {
      DcScanTaken(ps, ah, al);
      ReachOne(scans, ps, ScanInfo(UpTo(n), 0, 0, ah, al), Advanced(ps, n, 0, 0, al));
    } else {
      ReachEach(scans, ps, n, 0, 0, ah, al);
    }
  }

  function Alike(n: nat, p: Progress): (ps: seq<Progress>)
    ensures |ps| == n
  {
    seq(n, _ => p)
  }

  lemma ReachStart(n: nat)
    ensures Reaches([], Alike(n, Progress(-1, -1, -1)))
  {
    assert Plane(Progress(-1, -1, -1)) == seq(64, _ => -1);
    assert Planes(Alike(n, Progress(-1, -1, -1))) == Unsent(n);
  }

  lemma AllAdvanced(n: nat, p: Progress, ss: int, se: int, al: int)
    ensures Advanced(Alike(n, p), n, ss, se, al) == Alike(n, Advance(p, ss, se, al))
  {
  }

  lemma AllPurposeReaches(n: nat)
    requires n >= 1
    ensures Reaches(AllPurpose(n), Alike(n, Progress(0, 0, 0)))
  {
    hide Reaches, Each, Dc, Advanced;
    ReachStart(n);
    ReachDc([], Alike(n, Progress(-1, -1, -1)), 0, 1);
    AllAdvanced(n, Progress(-1, -1, -1), 0, 0, 1);
    var a := Dc(n, 0, 1);
    assert [] + a == a;
    ReachEach(a, Alike(n, Progress(1, -1, -1)), n, 1, 5, 0, 2);
    AllAdvanced(n, Progress(1, -1, -1), 1, 5, 2);
    var b := a + Each(n, 1, 5, 0, 2);
    ReachEach(b, Alike(n, Progress(1, 2, -1)), n, 6, 63, 0, 2);
    AllAdvanced(n, Progress(1, 2, -1), 6, 63, 2);
    var c := b + Each(n, 6, 63, 0, 2);
    ReachEach(c, Alike(n, Progress(1, 2, 2)), n, 1, 63, 2, 1);
    AllAdvanced(n, Progress(1, 2, 2), 1, 63, 1);
    var d := c + Each(n, 1, 63, 2, 1);
    ReachDc(d, Alike(n, Progress(1, 1, 1)), 1, 0);
    AllAdvanced(n, Progress(1, 1, 1), 0, 0, 0);
    var e := d + Dc(n, 1, 0);
    ReachEach(e, Alike(n, Progress(0, 1, 1)), n, 1, 63, 1, 0);
    AllAdvanced(n, Progress(0, 1, 1), 1, 63, 0);
  }

  lemma YccReaches()
    ensures Reaches(YccScript(), Alike(3, Progress(0, 0, 0)))
  {
    hide Reaches, Dc;
    ReachStart(3);
    ReachDc([], Alike(3, Progress(-1, -1, -1)), 0, 1);
    AllAdvanced(3, Progress(-1, -1, -1), 0, 0, 1);
    var s, p := Dc(3, 0, 1), Alike(3, Progress(1, -1, -1));
    assert [] + s == s;
    ReachFor(s, p, 0, 1, 5, 0, 2);
    s, p := s + [For(0, 1, 5, 0, 2)], p[0 := Advance(p[0], 1, 5, 2)];
    ReachFor(s, p, 2, 1, 63, 0, 1);
    s, p := s + [For(2, 1, 63, 0, 1)], p[2 := Advance(p[2], 1, 63, 1)];
    ReachFor(s, p, 1, 1, 63, 0, 1);
    s, p := s + [For(1, 1, 63, 0, 1)], p[1 := Advance(p[1], 1, 63, 1)];
    ReachFor(s, p, 0, 6, 63, 0, 2);
    s, p := s + [For(0, 6, 63, 0, 2)], p[0 := Advance(p[0], 6, 63, 2)];
    ReachFor(s, p, 0, 1, 63, 2, 1);
    s, p := s + [For(0, 1, 63, 2, 1)], p[0 := Advance(p[0], 1, 63, 1)];
    assert p == Alike(3, Progress(1, 1, 1));
    ReachDc(s, p, 1, 0);
    AllAdvanced(3, Progress(1, 1, 1), 0, 0, 0);
    s, p := s + Dc(3, 1, 0), Alike(3, Progress(0, 1, 1));
    ReachFor(s, p, 2, 1, 63, 1, 0);
    s, p := s + [For(2, 1, 63, 1, 0)], p[2 := Advance(p[2], 1, 63, 0)];
    ReachFor(s, p, 1, 1, 63, 1, 0);
    s, p := s + [For(1, 1, 63, 1, 0)], p[1 := Advance(p[1], 1, 63, 0)];
    ReachFor(s, p, 0, 1, 63, 1, 0);
    s, p := s + [For(0, 1, 63, 1, 0)], p[0 := Advance(p[0], 1, 63, 0)];
    assert p == Alike(3, Progress(0, 0, 0));
  }

  lemma ScriptReaches(n: nat, ycc: bool)
    requires n >= 1
    ensures Reaches(Script(n, ycc), Alike(n, Progress(0, 0, 0)))
  {
    hide AllPurpose, YccScript, Reaches, Alike;
    if n == 3 && ycc { YccReaches(); } else { AllPurposeReaches(n); }
  }

  lemma NothingToScan(ycc: bool)
    ensures !LegalProgressive(0, Script(0, ycc))
  {
    assert Script(0, ycc)[0] == ScanInfo(UpTo(0), 0, 0, 0, 1);
    assert !GoodProgScan(0, PosAfter(0, Script(0, ycc), 0), Script(0, ycc)[0]);
  }

  lemma StartsWithDc(n: nat, ycc: bool)
    ensures Script(n, ycc) != [] && IsProgressive(Script(n, ycc))
  {
    var dc := Dc(n, 0, 1);
    assert dc != [] && dc[0].se == 0 by { if n > 4 { assert Each(n, 0, 0, 0, 1)[0].se == 0; } }
    assert Script(n, ycc)[0] == dc[0];
  }

  // validate_script accepts the script exactly when there is a component, and it leaves no bit of any coefficient unsent.
  lemma ScriptLegal(n: nat, ycc: bool)
    ensures Script(n, ycc) != [] && IsProgressive(Script(n, ycc))
    ensures LegalProgressive(n, Script(n, ycc)) <==> n >= 1
    ensures forall c, k :: 0 <= c < n && 0 <= k < 64 ==> PosAfter(n, Script(n, ycc), |Script(n, ycc)|)[c][k] == 0
  {
    hide Script, PosAfter, GoodProgUpTo;
    StartsWithDc(n, ycc);
    if n == 0 {
      NothingToScan(ycc);
    } else {
      ScriptReaches(n, ycc);
    }
  }
}
