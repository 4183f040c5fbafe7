// SOF and SOS segments: frame and scan headers written and read back.
module FrameSegments {
  import opened Numbers
  import opened MarkerBytes

  const M_SOS: Byte := 0xDA
  const MAX_COMPS_IN_SCAN := 4

  datatype FrameComp = FrameComp(id: Byte, h: nat, v: nat, quantTbl: Byte)

  datatype FrameHeader = FrameHeader(precision: Byte, height: nat, width: nat, comps: seq<FrameComp>)

  // ----- the frame header -----

  function CompBytes(c: FrameComp): seq<Byte>
    requires c.h < 0x10 && c.v < 0x10
  {
    [c.id, Both(c.h, c.v), c.quantTbl]
  }

  ghost predicate GoodComps(comps: seq<FrameComp>) { |comps| < 0x100 && forall ci :: 0 <= ci < |comps| ==> comps[ci].h < 0x10 && comps[ci].v < 0x10 }

  function CompsBytes(comps: seq<FrameComp>): (b: seq<Byte>)
    requires GoodComps(comps)
    ensures |b| == 3 * |comps|
  {
    if comps == [] then [] else CompBytes(comps[0]) + CompsBytes(comps[1..])
  }

  // What fits into the fields.
  ghost predicate FitsSof(f: FrameHeader) { f.height < 0x10000 && f.width < 0x10000 && GoodComps(f.comps) }

  ghost function SofBody(f: FrameHeader): (b: seq<Byte>)
    requires FitsSof(f)
    ensures |b| == 8 + 3 * |f.comps|
  {
    Two(3 * |f.comps| + 8) + ([f.precision] + (Two(f.height) + (Two(f.width) + ([|f.comps|] + CompsBytes(f.comps)))))
  }

  // emit_sof: an image too big for the fields is an error.
  method EmitSof(w: MarkerWriter, code: Byte, f: FrameHeader) returns (ok: bool)
    requires GoodComps(f.comps)
    modifies w
    ensures ok <==> f.height <= 65535 && f.width <= 65535
    ensures ok ==> w.out == old(w.out) + ([0xFF, code] + SofBody(f))
  {
    hide Two, CompsBytes;
    w.EmitMarker(code);
    w.Emit2Bytes(3 * |f.comps| + 2 + 5 + 1);
    if f.height > 65535 || f.width > 65535 {
      return false;
    }
    w.EmitByte(f.precision);
    w.Emit2Bytes(f.height);
    w.Emit2Bytes(f.width);
    w.EmitByte(|f.comps|);
    ghost var head := w.out;
    EmitComps(w, f.comps);
    Grouped(old(w.out) + [0xFF, code], Two(3 * |f.comps| + 8), [f.precision], Two(f.height), Two(f.width), [|f.comps|] + CompsBytes(f.comps));
    assert head + CompsBytes(f.comps) == old(w.out) + [0xFF, code] + Two(3 * |f.comps| + 8) + [f.precision] + Two(f.height) + Two(f.width) + ([|f.comps|] + CompsBytes(f.comps));
    assert old(w.out) + [0xFF, code] + SofBody(f) == old(w.out) + ([0xFF, code] + SofBody(f));
    ok := true;
  }

  lemma Grouped(a: seq<Byte>, b: seq<Byte>, c: seq<Byte>, d: seq<Byte>, e: seq<Byte>, f: seq<Byte>)
    ensures a + b + c + d + e + f == a + (b + (c + (d + (e + f))))
  {
  }

  method EmitComp(w: MarkerWriter, c: FrameComp)
    requires c.h < 0x10 && c.v < 0x10
    modifies w
    ensures w.out == old(w.out) + CompBytes(c)
  {
    hide Both;
    w.EmitByte(c.id);
    w.EmitByte(Both(c.h, c.v));
    w.EmitByte(c.quantTbl);
  }

  lemma CompsFrom(comps: seq<FrameComp>, ci: nat)
    requires ci < |comps| && GoodComps(comps[ci..])
    ensures comps[ci].h < 0x10 && comps[ci].v < 0x10 && GoodComps(comps[ci + 1..])
    ensures CompsBytes(comps[ci..]) == CompBytes(comps[ci]) + CompsBytes(comps[ci + 1..])
  {
    hide CompBytes;
    var rest := comps[ci..];
    assert rest[0] == comps[ci] && rest[1..] == comps[ci + 1..];
  }

  method EmitComps(w: MarkerWriter, comps: seq<FrameComp>)
    requires GoodComps(comps)
    modifies w
    ensures w.out == old(w.out) + CompsBytes(comps)
  {
    ghost var sent: seq<Byte> := [];
    var ci := 0;
    assert comps[0..] == comps;
    while ci < |comps|
      invariant 0 <= ci <= |comps| && GoodComps(comps[ci..])
      invariant w.out == old(w.out) + sent && sent + CompsBytes(comps[ci..]) == CompsBytes(comps)
    {
      CompsFrom(comps, ci);
      hide CompsBytes, CompBytes, GoodComps;
      EmitComp(w, comps[ci]);
      MovesOn(old(w.out), sent, CompBytes(comps[ci]), CompsBytes(comps[ci + 1..]));
      sent := sent + CompBytes(comps[ci]);
      ci := ci + 1;
    }
    assert comps[ci..] == [] && sent + [] == sent;
  }

  // get_sof; what it reads is taken over when it is done.
  method GetSof(src: MarkerSource, sawSof: bool, ghost f0: FrameHeader) returns (got: Got, f: FrameHeader)
    requires src.Valid()
    modifies src`pos
    ensures src.Valid() && (got != Done ==> src.pos == old(src.pos))
    ensures FitsSof(f0) && old(src.Ahead(src.pos, src.pos + |SofBody(f0)|, SofBody(f0))) ==>
      var end := old(src.pos) + |SofBody(f0)|;
      if end > src.avail then got == Suspended || got == Failed
      else got == (if !sawSof && f0.height > 0 && f0.width > 0 && f0.comps != [] then Done else Failed) && (got == Done ==> f == f0 && src.pos == end)
  {
    ghost var sync := FitsSof(f0) && src.Ahead(src.pos, src.pos + |SofBody(f0)|, SofBody(f0));
    ghost var end := if sync then src.pos + |SofBody(f0)| else 0;
    f := FrameHeader(0, 0, 0, []);
    if sync { SofParts(src, src.pos, end, f0); }
    hide MarkerSource.Ahead, SofBody, CompsBytes, Word;
    var ok, length, precision, height, width, n, next;
    next := src.pos;
    ok, length, next := src.Input2Bytes(next);
    if !ok { return Suspended, f; }
    ok, precision, next := src.InputByte(next);
    if !ok { return Suspended, f; }
    ok, height, next := src.Input2Bytes(next);
    if !ok { return Suspended, f; }
    ok, width, next := src.Input2Bytes(next);
    if !ok { return Suspended, f; }
    ok, n, next := src.InputByte(next);
    if !ok { return Suspended, f; }
    var count: nat := n;
    if sawSof || height == 0 || width == 0 || count == 0 || length != 3 * count + 8 {
      return Failed, f;
    }
    var comps;
    ok, comps, next := GetComps(src, next, count, end, if sync then f0.comps else [], sync);
    if !ok { return Suspended, f; }
    src.pos := next;
    return Done, FrameHeader(precision, height, width, comps);
  }

  lemma SofParts(src: MarkerSource, at: nat, end: nat, f: FrameHeader)
    requires FitsSof(f) && src.Ahead(at, end, SofBody(f))
    ensures at + 8 + 3 * |f.comps| == end <= |src.data| && Word(src.data[at], src.data[at + 1]) == 3 * |f.comps| + 8
    ensures src.data[at + 2] == f.precision && Word(src.data[at + 3], src.data[at + 4]) == f.height
    ensures Word(src.data[at + 5], src.data[at + 6]) == f.width && src.data[at + 7] == |f.comps| && src.Ahead(at + 8, end, CompsBytes(f.comps))
  {
    hide CompsBytes, Two;
    var s := src.data[at..end];
    assert s == SofBody(f);
    var head := Two(3 * |f.comps| + 8) + [f.precision] + Two(f.height) + Two(f.width) + [|f.comps|];
    assert SofBody(f) == head + CompsBytes(f.comps);
    src.AheadPart(at, end, head, CompsBytes(f.comps));
    assert forall k :: 0 <= k < 8 ==> src.data[at + k] == s[k];
    assert s[0] == head[0] && s[1] == head[1] && s[2] == head[2] && s[3] == head[3] && s[4] == head[4] && s[5] == head[5] && s[6] == head[6] && s[7] == head[7];
  }

  method GetComps(src: MarkerSource, at: nat, n: nat, ghost end: nat, ghost comps0: seq<FrameComp>, ghost sync: bool)
    returns (ok: bool, comps: seq<FrameComp>, next: nat)
    requires src.Valid() && src.pos <= at <= src.avail
    requires sync ==> GoodComps(comps0) && n == |comps0| && src.Ahead(at, end, CompsBytes(comps0))
    ensures next <= src.avail && (ok <==> at + 3 * n <= src.avail) && (ok ==> at <= next)
    ensures ok && sync ==> comps == comps0 && next == end
  {
    hide MarkerSource.Ahead, Low, High;
    comps, next, ok := [], at, true;
    if sync { assert comps0[0..] == comps0; }
    while |comps| < n
      invariant ok && |comps| <= n && next == at + 3 * |comps| <= src.avail
      invariant sync ==> comps == comps0[..|comps|] && GoodComps(comps0[|comps|..]) && src.Ahead(next, end, CompsBytes(comps0[|comps|..]))
    {
      ghost var ci := |comps|;
      if sync { CompParts(src, next, end, comps0[ci..]); }
      var id, c, tq;
      ok, id, next := src.InputByte(next);
      if !ok { return; }
      ok, c, next := src.InputByte(next);
      if !ok { return; }
      ok, tq, next := src.InputByte(next);
      if !ok { return; }
      comps := comps + [FrameComp(id, High(c), Low(c), tq)];
      if sync { assert comps0[..ci + 1] == comps0[..ci] + [comps0[ci]] && comps0[ci..][1..] == comps0[ci + 1..]; }
    }
    if sync { EndOfComps(src, next, end, comps0); }
  }

  lemma EndOfComps(src: MarkerSource, at: nat, end: nat, comps: seq<FrameComp>)
    requires GoodComps(comps[|comps|..]) && src.Ahead(at, end, CompsBytes(comps[|comps|..]))
    ensures at == end && comps[..|comps|] == comps
  {
  }

  lemma CompParts(src: MarkerSource, at: nat, end: nat, comps: seq<FrameComp>)
    requires GoodComps(comps) && comps != [] && src.Ahead(at, end, CompsBytes(comps))
    ensures at + 3 <= end <= |src.data| && GoodComps(comps[1..]) && src.Ahead(at + 3, end, CompsBytes(comps[1..]))
    ensures src.data[at] == comps[0].id && src.data[at + 1] == Both(comps[0].h, comps[0].v) && src.data[at + 2] == comps[0].quantTbl
  {
    var head := CompBytes(comps[0]);
    src.AheadPart(at, end, head, CompsBytes(comps[1..]));
    assert forall k :: 0 <= k < 3 ==> src.data[at..at + 3][k] == head[k];
    assert src.data[at..at + 3][0] == src.data[at] && src.data[at..at + 3][1] == src.data[at + 1] && src.data[at..at + 3][2] == src.data[at + 2];
  }

  // ----- the scan header -----

  // A component of the scan: its place in the frame, and its tables.
  datatype ScanComp = ScanComp(ci: nat, dcTbl: nat, acTbl: nat)

  datatype ScanHeader = ScanHeader(comps: seq<ScanComp>, ss: Byte, se: Byte, ah: nat, al: nat)

  // No two components of the frame have the same identifier.
  ghost predicate Distinct(frame: seq<FrameComp>) {
    forall i, j :: 0 <= i < j < |frame| ==> frame[i].id != frame[j].id
  }

  ghost predicate GoodScanComps(comps: seq<ScanComp>, frame: seq<FrameComp>) {
    forall i :: 0 <= i < |comps| ==> comps[i].ci < |frame| && comps[i].dcTbl < 0x10 && comps[i].acTbl < 0x10
  }

  ghost predicate GoodScan(s: ScanHeader, frame: seq<FrameComp>) {
    |s.comps| <= MAX_COMPS_IN_SCAN && s.ah < 0x10 && s.al < 0x10 && GoodScanComps(s.comps, frame)
  }

  // The table numbers that the scan uses; the others are sent as 0.
  function Used(s: ScanHeader, c: ScanComp): ScanComp {
    ScanComp(c.ci, if s.ss == 0 && s.ah == 0 then c.dcTbl else 0, if s.se != 0 then c.acTbl else 0)
  }

  function UsedAll(s: ScanHeader, comps: seq<ScanComp>): (r: seq<ScanComp>)
    ensures |r| == |comps| && forall i :: 0 <= i < |r| ==> r[i] == Used(s, comps[i])
  {
    seq(|comps|, i requires 0 <= i < |comps| => Used(s, comps[i]))
  }

  function SpecBytes(c: ScanComp, frame: seq<FrameComp>): seq<Byte>
    requires c.ci < |frame| && c.dcTbl < 0x10 && c.acTbl < 0x10
  {
    [frame[c.ci].id, Both(c.dcTbl, c.acTbl)]
  }

  function SpecsBytes(comps: seq<ScanComp>, frame: seq<FrameComp>): (b: seq<Byte>)
    requires GoodScanComps(comps, frame)
    ensures |b| == 2 * |comps|
  {
    if comps == [] then [] else SpecBytes(comps[0], frame) + SpecsBytes(comps[1..], frame)
  }

  ghost function SosBody(s: ScanHeader, frame: seq<FrameComp>): (b: seq<Byte>)
    requires GoodScan(s, frame)
    ensures |b| == 6 + 2 * |s.comps|
  {
    Two(2 * |s.comps| + 6) + ([|s.comps|] + (SpecsBytes(UsedAll(s, s.comps), frame) + [s.ss, s.se, Both(s.ah, s.al)]))
  }

  // emit_sos
  method EmitSos(w: MarkerWriter, s: ScanHeader, frame: seq<FrameComp>)
    requires GoodScan(s, frame)
    modifies w
    ensures w.out == old(w.out) + ([0xFF, M_SOS] + SosBody(s, frame))
  {
    hide Two, SpecsBytes, Both;
    w.EmitMarker(M_SOS);
    w.Emit2Bytes(2 * |s.comps| + 2 + 1 + 3);
    w.EmitByte(|s.comps|);
    EmitSpecs(w, s, frame);
    w.EmitByte(s.ss);
    w.EmitByte(s.se);
    w.EmitByte(Both(s.ah, s.al));
    Grouped(old(w.out), [0xFF, M_SOS], Two(2 * |s.comps| + 6), [|s.comps|], SpecsBytes(UsedAll(s, s.comps), frame), [s.ss, s.se, Both(s.ah, s.al)]);
  }

  method EmitSpec(w: MarkerWriter, s: ScanHeader, c: ScanComp, frame: seq<FrameComp>)
    requires c.ci < |frame| && c.dcTbl < 0x10 && c.acTbl < 0x10
    modifies w
    ensures w.out == old(w.out) + SpecBytes(Used(s, c), frame)
  {
    hide Both;
    w.EmitByte(frame[c.ci].id);
    var td := if s.ss == 0 && s.ah == 0 then c.dcTbl else 0;
    var ta := if s.se != 0 then c.acTbl else 0;
    w.EmitByte(Both(td, ta));
  }

  lemma SpecsFrom(comps: seq<ScanComp>, i: nat, frame: seq<FrameComp>)
    requires i < |comps| && GoodScanComps(comps[i..], frame)
    ensures comps[i].ci < |frame| && comps[i].dcTbl < 0x10 && comps[i].acTbl < 0x10 && GoodScanComps(comps[i + 1..], frame)
    ensures SpecsBytes(comps[i..], frame) == SpecBytes(comps[i], frame) + SpecsBytes(comps[i + 1..], frame)
  {
    hide SpecBytes;
    var rest := comps[i..];
    assert rest[0] == comps[i] && rest[1..] == comps[i + 1..];
  }

  method EmitSpecs(w: MarkerWriter, s: ScanHeader, frame: seq<FrameComp>)
    requires GoodScan(s, frame)
    modifies w
    ensures w.out == old(w.out) + SpecsBytes(UsedAll(s, s.comps), frame)
  {
    ghost var all := UsedAll(s, s.comps);
    ghost var sent: seq<Byte> := [];
    var i := 0;
    assert all[0..] == all;
    while i < |s.comps|
      invariant 0 <= i <= |s.comps| && GoodScanComps(all[i..], frame)
      invariant w.out == old(w.out) + sent && sent + SpecsBytes(all[i..], frame) == SpecsBytes(all, frame)
    {
      SpecsFrom(all, i, frame);
      hide SpecsBytes, SpecBytes, Used;
      EmitSpec(w, s, s.comps[i], frame);
      MovesOn(old(w.out), sent, SpecBytes(all[i], frame), SpecsBytes(all[i + 1..], frame));
      sent := sent + SpecBytes(all[i], frame);
      i := i + 1;
    }
    assert all[i..] == [] && sent + [] == sent;
  }

  // get_sos; progressive mode allows a scan header without components.
  method GetSos(src: MarkerSource, frame: seq<FrameComp>, sawSof: bool, progressive: bool, ghost s0: ScanHeader) returns (got: Got, s: ScanHeader)
    requires src.Valid()
    modifies src`pos
    ensures src.Valid() && (got != Done ==> src.pos == old(src.pos))
    ensures GoodScan(s0, frame) && Distinct(frame) && sawSof && (s0.comps != [] || progressive)
            && old(src.Ahead(src.pos, src.pos + |SosBody(s0, frame)|, SosBody(s0, frame))) ==>
      var end := old(src.pos) + |SosBody(s0, frame)|;
      if end > src.avail then got == Suspended
      else got == Done && src.pos == end && s == s0.(comps := UsedAll(s0, s0.comps))
  {
    ghost var sync := GoodScan(s0, frame) && Distinct(frame) && sawSof && (s0.comps != [] || progressive)
      && src.Ahead(src.pos, src.pos + |SosBody(s0, frame)|, SosBody(s0, frame));
    ghost var end := if sync then src.pos + |SosBody(s0, frame)| else 0;
    s := ScanHeader([], 0, 0, 0, 0);
    if !sawSof {
      return Failed, s;
    }
    if sync { SosParts(src, src.pos, end, s0, frame); }
    hide MarkerSource.Ahead, SosBody, SpecsBytes, Word, Low, High, Both, UsedAll;
    var ok, length, n, next;
    next := src.pos;
    ok, length, next := src.Input2Bytes(next);
    if !ok { return Suspended, s; }
    ok, n, next := src.InputByte(next);
    if !ok { return Suspended, s; }
    var count: nat := n;
    if length != 2 * count + 6 || count > MAX_COMPS_IN_SCAN || (count == 0 && !progressive) {
      return Failed, s;
    }
    var comps;
    got, comps, next := GetSpecs(src, next, count, frame, end - 3, if sync then UsedAll(s0, s0.comps) else [], sync);
    if got != Done { return got, s; }
    var ss, se, a;
    ok, ss, next := src.InputByte(next);
    if !ok { return Suspended, s; }
    ok, se, next := src.InputByte(next);
    if !ok { return Suspended, s; }
    ok, a, next := src.InputByte(next);
    if !ok { return Suspended, s; }
    src.pos := next;
    return Done, ScanHeader(comps, ss, se, High(a), Low(a));
  }

  lemma SosParts(src: MarkerSource, at: nat, end: nat, s: ScanHeader, frame: seq<FrameComp>)
    requires GoodScan(s, frame) && src.Ahead(at, end, SosBody(s, frame))
    ensures at + 6 + 2 * |s.comps| == end <= |src.data| && Word(src.data[at], src.data[at + 1]) == 2 * |s.comps| + 6 && src.data[at + 2] == |s.comps|
    ensures src.Ahead(at + 3, end - 3, SpecsBytes(UsedAll(s, s.comps), frame))
    ensures src.data[end - 3] == s.ss && src.data[end - 2] == s.se && High(src.data[end - 1]) == s.ah && Low(src.data[end - 1]) == s.al
  {
    hide SpecsBytes, Two, UsedAll, High, Low, Both;
    var head, specs, tail := Two(2 * |s.comps| + 6) + [|s.comps|], SpecsBytes(UsedAll(s, s.comps), frame), [s.ss, s.se, Both(s.ah, s.al)];
    var b := src.data[at..end];
    assert b == SosBody(s, frame) == head + (specs + tail);
    src.AheadPart(at, end, head, specs + tail);
    assert b[0] == head[0] && b[1] == head[1] && b[2] == head[2];
    src.AheadPart(at + 3, end, specs, tail);
    var t := src.data[end - 3..end];
    assert t == tail && t[0] == src.data[end - 3] && t[1] == src.data[end - 2] && t[2] == src.data[end - 1];
  }

  // The component with an identifier.
  method Find(frame: seq<FrameComp>, id: Byte) returns (ci: nat)
    ensures ci <= |frame| && (ci < |frame| ==> frame[ci].id == id) && forall k :: 0 <= k < ci ==> frame[k].id != id
  {
    ci := 0;
    while ci < |frame| && frame[ci].id != id
      invariant ci <= |frame| && forall k :: 0 <= k < ci ==> frame[k].id != id
    {
      ci := ci + 1;
    }
  }

  method GetSpecs(src: MarkerSource, at: nat, n: nat, frame: seq<FrameComp>, ghost end: int, ghost comps0: seq<ScanComp>, ghost sync: bool)
    returns (got: Got, comps: seq<ScanComp>, next: nat)
    requires src.Valid() && src.pos <= at <= src.avail
    requires sync ==> end >= 0 && GoodScanComps(comps0, frame) && Distinct(frame) && n == |comps0| && src.Ahead(at, end, SpecsBytes(comps0, frame))
    ensures next <= src.avail && (got == Done ==> at <= next)
    ensures sync ==> if at + 2 * n <= src.avail then got == Done && comps == comps0 && next == end else got == Suspended
  {
    hide MarkerSource.Ahead, Low, High;
    comps, next := [], at;
    if sync { assert comps0[0..] == comps0; }
    while |comps| < n
      invariant |comps| <= n && next == at + 2 * |comps| <= src.avail
      invariant sync ==> comps == comps0[..|comps|] && GoodScanComps(comps0[|comps|..], frame) && src.Ahead(next, end, SpecsBytes(comps0[|comps|..], frame))
    {
      ghost var i := |comps|;
      if sync { SpecParts(src, next, end, comps0[i..], frame); }
      var ok, cc, c;
      ok, cc, next := src.InputByte(next);
      if !ok { return Suspended, comps, next; }
      ok, c, next := src.InputByte(next);
      if !ok { return Suspended, comps, next; }
      var ci := Find(frame, cc);
      if ci == |frame| {
        return Failed, comps, next;
      }
      comps := comps + [ScanComp(ci, High(c), Low(c))];
      if sync { assert comps0[..i + 1] == comps0[..i] + [comps0[i]] && comps0[i..][1..] == comps0[i + 1..]; }
    }
    got := Done;
    if sync { EndOfSpecs(src, next, end, comps0, frame); }
  }

  lemma EndOfSpecs(src: MarkerSource, at: nat, end: nat, comps: seq<ScanComp>, frame: seq<FrameComp>)
    requires GoodScanComps(comps[|comps|..], frame) && src.Ahead(at, end, SpecsBytes(comps[|comps|..], frame))
    ensures at == end && comps[..|comps|] == comps
  {
  }

  lemma SpecParts(src: MarkerSource, at: nat, end: nat, comps: seq<ScanComp>, frame: seq<FrameComp>)
    requires GoodScanComps(comps, frame) && comps != [] && src.Ahead(at, end, SpecsBytes(comps, frame))
    ensures at + 2 <= end <= |src.data| && GoodScanComps(comps[1..], frame) && src.Ahead(at + 2, end, SpecsBytes(comps[1..], frame))
    ensures src.data[at] == frame[comps[0].ci].id && src.data[at + 1] == Both(comps[0].dcTbl, comps[0].acTbl)
  {
    var head := SpecBytes(comps[0], frame);
    src.AheadPart(at, end, head, SpecsBytes(comps[1..], frame));
    assert src.data[at..at + 2][0] == src.data[at] == head[0] && src.data[at..at + 2][1] == src.data[at + 1] == head[1];
  }
}
