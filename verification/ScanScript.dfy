// Multi-scan scripts: validation in jcmaster.c, the recommended script in jcparam.c.
module ScanScript {
  const MAX_COMPS_IN_SCAN := 4
  const MAX_AH_AL := 10

  // One entry of scan_info; comps_in_scan is the length of the list.
  datatype ScanInfo = ScanInfo(comps: seq<int>, ss: int, se: int, ah: int, al: int)

  datatype Verdict =
    | Accepted(progressive: bool)
    | NoScans
    | ComponentCount(scanno: nat)
    | BadScanScript(scanno: nat)
    | BadProgScript(scanno: nat)
    | MissingData

  // For each component, the Al of the last scan of each coefficient, -1 before the first.
  type BitPos = seq<seq<int>>

  ghost predicate Shaped(n: nat, pos: BitPos) {
    |pos| == n && forall c :: 0 <= c < n ==> |pos[c]| == 64
  }

  function Unsent(n: nat): (pos: BitPos)
    ensures Shaped(n, pos)
  {
    seq(n, _ => seq(64, _ => -1))
  }

  // ----- what makes a script legal -----

  ghost predicate GoodComps(n: nat, s: ScanInfo) {
    && 0 < |s.comps| <= MAX_COMPS_IN_SCAN
    && (forall i :: 0 <= i < |s.comps| ==> 0 <= s.comps[i] < n)
    && forall i :: 0 < i < |s.comps| ==> s.comps[i - 1] < s.comps[i]
  }

  ghost predicate GoodBand(s: ScanInfo) {
    && 0 <= s.ss <= s.se < 64
    && 0 <= s.ah <= MAX_AH_AL && 0 <= s.al <= MAX_AH_AL
    && if s.ss == 0 then s.se == 0 else |s.comps| == 1
  }

  // The scan carries the coefficients of a component on from where the last scan left them.
  ghost predicate Follows(last: seq<int>, s: ScanInfo)
    requires |last| == 64
  {
    && (s.ss != 0 ==> last[0] >= 0)
    && forall k :: s.ss <= k <= s.se && 0 <= k < 64 ==>
         if last[k] < 0 then s.ah == 0 else s.ah == last[k] && s.al == s.ah - 1
  }

  ghost predicate GoodProgScan(n: nat, pos: BitPos, s: ScanInfo)
    requires Shaped(n, pos)
  {
    && GoodComps(n, s) && GoodBand(s)
    && forall i :: 0 <= i < |s.comps| ==> Follows(pos[s.comps[i]], s)
  }

  function Sent(last: seq<int>, s: ScanInfo): (r: seq<int>)
    requires |last| == 64
    ensures |r| == 64
  {
    seq(64, k requires 0 <= k < 64 => if s.ss <= k <= s.se then s.al else last[k])
  }

  ghost function After(n: nat, pos: BitPos, s: ScanInfo): (r: BitPos)
    requires Shaped(n, pos)
    ensures Shaped(n, r)
  {
    seq(n, c requires 0 <= c < n => if c in s.comps then Sent(pos[c], s) else pos[c])
  }

  ghost function PosAfter(n: nat, scans: seq<ScanInfo>, i: nat): (pos: BitPos)
    requires i <= |scans|
    ensures Shaped(n, pos)
  {
    if i == 0 then Unsent(n) else After(n, PosAfter(n, scans, i - 1), scans[i - 1])
  }

  ghost predicate GoodProgUpTo(n: nat, scans: seq<ScanInfo>, m: nat)
    requires m <= |scans|
  {
    forall i :: 0 <= i < m ==> GoodProgScan(n, PosAfter(n, scans, i), scans[i])
  }

  ghost predicate LegalProgressive(n: nat, scans: seq<ScanInfo>) {
    && GoodProgUpTo(n, scans, |scans|)
    && forall c :: 0 <= c < n ==> PosAfter(n, scans, |scans|)[c][0] >= 0
  }

  function Elements(s: seq<int>): set<int> {
    set c | c in s
  }

  // Components sent by the first i scans of a sequential script.
  ghost function SentBy(scans: seq<ScanInfo>, i: nat): set<int>
    requires i <= |scans|
  {
    if i == 0 then {} else SentBy(scans, i - 1) + Elements(scans[i - 1].comps)
  }

  ghost predicate GoodSeqScan(n: nat, sent: set<int>, s: ScanInfo) {
    && GoodComps(n, s)
    && s.ss == 0 && s.se == 63 && s.ah == 0 && s.al == 0
    && forall c :: c in s.comps ==> c !in sent
  }

  ghost predicate GoodSeqUpTo(n: nat, scans: seq<ScanInfo>, m: nat)
    requires m <= |scans|
  {
    forall i :: 0 <= i < m ==> GoodSeqScan(n, SentBy(scans, i), scans[i])
  }

  ghost predicate LegalSequential(n: nat, scans: seq<ScanInfo>) {
    && GoodSeqUpTo(n, scans, |scans|)
    && forall c :: 0 <= c < n ==> c in SentBy(scans, |scans|)
  }

  predicate IsProgressive(scans: seq<ScanInfo>)
    requires scans != []
  {
    scans[0].ss != 0 || scans[0].se != 63
  }

  // ----- validate_script -----

  // Component indexes in range and in order.
  method CheckComps(n: nat, s: ScanInfo, scanno: nat) returns (v: Verdict)
    ensures v == Accepted(false) <==> GoodComps(n, s)
    ensures v in {Accepted(false), ComponentCount(scanno), BadScanScript(scanno)}
  {
    var ncomps := |s.comps|;
    if ncomps <= 0 || ncomps > MAX_COMPS_IN_SCAN {
      return ComponentCount(scanno);
    }
    var ci := 0;
    while ci < ncomps
      invariant 0 <= ci <= ncomps
      invariant forall i :: 0 <= i < ci ==> 0 <= s.comps[i] < n
      invariant forall i :: 0 < i < ci ==> s.comps[i - 1] < s.comps[i]
    {
      var thisi := s.comps[ci];
      if thisi < 0 || thisi >= n {
        return BadScanScript(scanno);
      }
      if ci > 0 && thisi <= s.comps[ci - 1] {
        return BadScanScript(scanno);
      }
      ci := ci + 1;
    }
    return Accepted(false);
  }

  ghost predicate Holding(n: nat, a: array2<int>, pos: BitPos)
    requires Shaped(n, pos)
    reads a
  {
    a.Length0 == n && a.Length1 == 64 && forall c, k :: 0 <= c < n && 0 <= k < 64 ==> a[c, k] == pos[c][k]
  }

  // One component of a progressive scan: check each coefficient and note its new position.
  method CheckCoefs(n: nat, c: nat, s: ScanInfo, lastBitpos: array2<int>, ghost pos: BitPos) returns (ok: bool)
    requires Shaped(n, pos) && Holding(n, lastBitpos, pos) && c < n && GoodBand(s)
    modifies lastBitpos
    ensures ok <==> Follows(pos[c], s)
    ensures ok ==> Holding(n, lastBitpos, pos[c := Sent(pos[c], s)])
  {
    if s.ss != 0 && lastBitpos[c, 0] < 0 {
      return false;
    }
    var coefi := s.ss;
    while coefi <= s.se
      invariant s.ss <= coefi <= s.se + 1
      invariant forall k :: s.ss <= k < coefi ==>
        if pos[c][k] < 0 then s.ah == 0 else s.ah == pos[c][k] && s.al == s.ah - 1
      invariant forall i, k :: 0 <= i < n && 0 <= k < 64 ==>
        lastBitpos[i, k] == if i == c && s.ss <= k < coefi then s.al else pos[i][k]
    {
      assert lastBitpos[c, coefi] == pos[c][coefi];
      if lastBitpos[c, coefi] < 0 {
        if s.ah != 0 {
          return false;
        }
      } else {
        if s.ah != lastBitpos[c, coefi] || s.al != s.ah - 1 {
          return false;
        }
      }
      lastBitpos[c, coefi] := s.al;
      coefi := coefi + 1;
    }
    return true;
  }

  // The positions when the first i components of the scan have been dealt with.
  ghost function PartlyAfter(n: nat, pos: BitPos, s: ScanInfo, i: nat): (r: BitPos)
    requires Shaped(n, pos) && i <= |s.comps|
    ensures Shaped(n, r)
  {
    seq(n, c requires 0 <= c < n => if c in s.comps[..i] then Sent(pos[c], s) else pos[c])
  }

  lemma PartlyStep(n: nat, pos: BitPos, s: ScanInfo, i: nat)
    requires Shaped(n, pos) && GoodComps(n, s) && i < |s.comps|
    ensures PartlyAfter(n, pos, s, i)[s.comps[i]] == pos[s.comps[i]]
    ensures PartlyAfter(n, pos, s, i + 1) == PartlyAfter(n, pos, s, i)[s.comps[i] := Sent(pos[s.comps[i]], s)]
  {
    Increasing(n, s, i);
    assert s.comps[..i + 1] == s.comps[..i] + [s.comps[i]];
  }

  lemma {:induction false} Increasing(n: nat, s: ScanInfo, i: nat)
    requires GoodComps(n, s) && i < |s.comps|
    ensures forall j :: 0 <= j < i ==> s.comps[j] < s.comps[i]
  {
    if i > 0 { Increasing(n, s, i - 1); }
  }

  // The parameters of a progressive scan.
  method CheckProgScan(n: nat, s: ScanInfo, scanno: nat, lastBitpos: array2<int>, ghost pos: BitPos) returns (v: Verdict)
    requires Shaped(n, pos) && Holding(n, lastBitpos, pos) && GoodComps(n, s)
    modifies lastBitpos
    ensures v in {Accepted(true), BadProgScript(scanno)}
    ensures v == Accepted(true) <==> GoodProgScan(n, pos, s)
    ensures v == Accepted(true) ==> Holding(n, lastBitpos, After(n, pos, s))
  {
    hide Sent;
    if s.ss < 0 || s.ss >= 64 || s.se < s.ss || s.se >= 64 ||
       s.ah < 0 || s.ah > MAX_AH_AL || s.al < 0 || s.al > MAX_AH_AL {
      return BadProgScript(scanno);
    }
    if s.ss == 0 {
      if s.se != 0 {
        return BadProgScript(scanno);
      }
    } else {
      if |s.comps| != 1 {
        return BadProgScript(scanno);
      }
    }
    var ci := 0;
    assert PartlyAfter(n, pos, s, 0) == pos;
    while ci < |s.comps|
      invariant 0 <= ci <= |s.comps|
      invariant Holding(n, lastBitpos, PartlyAfter(n, pos, s, ci))
      invariant forall i :: 0 <= i < ci ==> Follows(pos[s.comps[i]], s)
    {
      PartlyStep(n, pos, s, ci);
      var ok := CheckCoefs(n, s.comps[ci], s, lastBitpos, PartlyAfter(n, pos, s, ci));
      if !ok {
        return BadProgScript(scanno);
      }
      ci := ci + 1;
    }
    assert s.comps[..ci] == s.comps;
    return Accepted(true);
  }

  ghost predicate Marked(n: nat, a: array<bool>, sent: set<int>)
    reads a
  {
    a.Length == n && forall c :: 0 <= c < n ==> (a[c] <==> c in sent)
  }

  // A sequential scan: fixed parameters, no component sent twice.
  method CheckSeqScan(n: nat, s: ScanInfo, scanno: nat, componentSent: array<bool>, ghost sent: set<int>) returns (v: Verdict)
    requires Marked(n, componentSent, sent) && GoodComps(n, s)
    modifies componentSent
    ensures v in {Accepted(false), BadProgScript(scanno), BadScanScript(scanno)}
    ensures v == Accepted(false) <==> GoodSeqScan(n, sent, s)
    ensures v == Accepted(false) ==> Marked(n, componentSent, sent + Elements(s.comps))
  {
    if s.ss != 0 || s.se != 63 || s.ah != 0 || s.al != 0 {
      return BadProgScript(scanno);
    }
    var ci := 0;
    while ci < |s.comps|
      invariant 0 <= ci <= |s.comps|
      invariant Marked(n, componentSent, sent + Elements(s.comps[..ci]))
      invariant forall i :: 0 <= i < ci ==> s.comps[i] !in sent
    {
      Increasing(n, s, ci);
      assert s.comps[..ci + 1] == s.comps[..ci] + [s.comps[ci]];
      var thisi := s.comps[ci];
      if componentSent[thisi] {
        return BadScanScript(scanno);
      }
      componentSent[thisi] := true;
      ci := ci + 1;
    }
    assert s.comps[..ci] == s.comps;
    return Accepted(false);
  }

  // The scan named by a rejection is the first one that is not legal.
  ghost predicate Blames(v: Verdict, n: nat, scans: seq<ScanInfo>)
    requires scans != []
  {
    v.ComponentCount? || v.BadScanScript? || v.BadProgScript? ==>
      && 1 <= v.scanno <= |scans|
      && if IsProgressive(scans) then
           GoodProgUpTo(n, scans, v.scanno - 1)
           && !GoodProgScan(n, PosAfter(n, scans, v.scanno - 1), scans[v.scanno - 1])
         else
           GoodSeqUpTo(n, scans, v.scanno - 1)
           && !GoodSeqScan(n, SentBy(scans, v.scanno - 1), scans[v.scanno - 1])
  }

  // Coverage, progressive mode: some DC data for each component.
  method AllDcSent(n: nat, lastBitpos: array2<int>, ghost pos: BitPos) returns (ok: bool)
    requires Shaped(n, pos) && Holding(n, lastBitpos, pos)
    ensures ok <==> forall c :: 0 <= c < n ==> pos[c][0] >= 0
  {
    var ci := 0;
    while ci < n
      invariant 0 <= ci <= n
      invariant forall c :: 0 <= c < ci ==> pos[c][0] >= 0
    {
      if lastBitpos[ci, 0] < 0 {
        assert pos[ci][0] == lastBitpos[ci, 0];
        return false;
      }
      ci := ci + 1;
    }
    return true;
  }

  method NewBitpos(n: nat) returns (lastBitpos: array2<int>)
    ensures fresh(lastBitpos) && Holding(n, lastBitpos, Unsent(n))
  {
    lastBitpos := new int[n, 64]((_, _) => -1);
  }

  lemma ProgNext(n: nat, scans: seq<ScanInfo>, i: nat)
    requires i < |scans| && GoodProgUpTo(n, scans, i)
    ensures GoodProgScan(n, PosAfter(n, scans, i), scans[i]) <==> GoodProgUpTo(n, scans, i + 1)
    ensures PosAfter(n, scans, i + 1) == After(n, PosAfter(n, scans, i), scans[i])
    ensures GoodProgScan(n, PosAfter(n, scans, i), scans[i]) ==> GoodComps(n, scans[i])
  {
    hide PosAfter, After, GoodComps, GoodBand, Follows;
    PosNext(n, scans, i);
  }

  lemma PosNext(n: nat, scans: seq<ScanInfo>, i: nat)
    requires i < |scans|
    ensures PosAfter(n, scans, i + 1) == After(n, PosAfter(n, scans, i), scans[i])
  {
  }

  lemma ProgFails(n: nat, scans: seq<ScanInfo>, i: nat)
    requires i <= |scans| && !GoodProgUpTo(n, scans, i)
    ensures !LegalProgressive(n, scans)
  {
    hide GoodProgScan;
  }

  method ValidateProgressive(n: nat, scans: seq<ScanInfo>) returns (v: Verdict)
    requires scans != [] && IsProgressive(scans)
    ensures v == Accepted(true) <==> LegalProgressive(n, scans)
    ensures v != Accepted(false) && v != NoScans && Blames(v, n, scans)
    ensures v == MissingData ==> GoodProgUpTo(n, scans, |scans|)
  {
    hide GoodProgScan, GoodComps, GoodProgUpTo, PosAfter, After, Holding, Unsent, IsProgressive, GoodSeqUpTo, GoodSeqScan;
    var lastBitpos := NewBitpos(n);
    NoneChecked(n, scans);
    var i := 0;
    while i < |scans|
      invariant 0 <= i <= |scans| && fresh(lastBitpos)
      invariant Holding(n, lastBitpos, PosAfter(n, scans, i)) && GoodProgUpTo(n, scans, i)
    {
      ghost var pos := PosAfter(n, scans, i);
      ProgNext(n, scans, i);
      v := CheckComps(n, scans[i], i + 1);
      if v == Accepted(false) {
        v := CheckProgScan(n, scans[i], i + 1, lastBitpos, pos);
      }
      if v != Accepted(true) {
        ProgFails(n, scans, i + 1);
        return;
      }
      i := i + 1;
    }
    var ok := AllDcSent(n, lastBitpos, PosAfter(n, scans, |scans|));
    v := if ok then Accepted(true) else MissingData;
  }

  lemma NoneChecked(n: nat, scans: seq<ScanInfo>)
    ensures PosAfter(n, scans, 0) == Unsent(n) && GoodProgUpTo(n, scans, 0)
    ensures SentBy(scans, 0) == {} && GoodSeqUpTo(n, scans, 0)
  {
  }

  method AllSent(n: nat, componentSent: array<bool>, ghost sent: set<int>) returns (ok: bool)
    requires Marked(n, componentSent, sent)
    ensures ok <==> forall c :: 0 <= c < n ==> c in sent
  {
    var ci := 0;
    while ci < n
      invariant 0 <= ci <= n
      invariant forall c :: 0 <= c < ci ==> c in sent
    {
      if !componentSent[ci] {
        return false;
      }
      ci := ci + 1;
    }
    return true;
  }

  lemma SeqNext(n: nat, scans: seq<ScanInfo>, i: nat)
    requires i < |scans| && GoodSeqUpTo(n, scans, i)
    ensures GoodSeqScan(n, SentBy(scans, i), scans[i]) <==> GoodSeqUpTo(n, scans, i + 1)
    ensures SentBy(scans, i + 1) == SentBy(scans, i) + Elements(scans[i].comps)
    ensures GoodSeqScan(n, SentBy(scans, i), scans[i]) ==> GoodComps(n, scans[i])
  {
    hide SentBy, Elements, GoodComps;
    SentNext(scans, i);
  }

  lemma SentNext(scans: seq<ScanInfo>, i: nat)
    requires i < |scans|
    ensures SentBy(scans, i + 1) == SentBy(scans, i) + Elements(scans[i].comps)
  {
  }

  lemma SeqFails(n: nat, scans: seq<ScanInfo>, i: nat)
    requires i <= |scans| && !GoodSeqUpTo(n, scans, i)
    ensures !LegalSequential(n, scans)
  {
    hide GoodSeqScan;
  }

  method ValidateSequential(n: nat, scans: seq<ScanInfo>) returns (v: Verdict)
    requires scans != [] && !IsProgressive(scans)
    ensures v == Accepted(false) <==> LegalSequential(n, scans)
    ensures v != Accepted(true) && v != NoScans && Blames(v, n, scans)
    ensures v == MissingData ==> GoodSeqUpTo(n, scans, |scans|)
  {
    hide GoodProgScan, GoodProgUpTo, GoodComps, IsProgressive, GoodSeqScan, GoodSeqUpTo, SentBy, Elements;
    var componentSent := new bool[n](_ => false);
    NoneChecked(n, scans);
    assert Marked(n, componentSent, SentBy(scans, 0));
    hide Marked;
    var i := 0;
    while i < |scans|
      invariant 0 <= i <= |scans| && fresh(componentSent)
      invariant Marked(n, componentSent, SentBy(scans, i)) && GoodSeqUpTo(n, scans, i)
    {
      SeqNext(n, scans, i);
      v := CheckComps(n, scans[i], i + 1);
      if v == Accepted(false) {
        v := CheckSeqScan(n, scans[i], i + 1, componentSent, SentBy(scans, i));
      }
      if v != Accepted(false) {
        SeqFails(n, scans, i + 1);
        return;
      }
      i := i + 1;
    }
    var ok := AllSent(n, componentSent, SentBy(scans, |scans|));
    v := if ok then Accepted(false) else MissingData;
  }

  // validate_script; n is num_components.
  method ValidateScript(n: nat, scans: seq<ScanInfo>) returns (v: Verdict)
    ensures v == NoScans <==> scans == []
    ensures v == Accepted(true) <==> scans != [] && IsProgressive(scans) && LegalProgressive(n, scans)
    ensures v == Accepted(false) <==> scans != [] && !IsProgressive(scans) && LegalSequential(n, scans)
    ensures scans != [] ==> Blames(v, n, scans)
  {
    if |scans| <= 0 {
      return NoScans;
    }
    if scans[0].ss != 0 || scans[0].se != 63 {
      v := ValidateProgressive(n, scans);
    } else {
      v := ValidateSequential(n, scans);
    }
  }
}
