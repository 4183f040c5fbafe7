// Master control of compression passes: jcmaster.c, driven as jcapistd.c, jctrans.c and jcapimin.c drive it.
module PassMachine {
  import opened ScanScript

  datatype PassType = MainPass | HuffOptPass | OutputPass

  // How the coefficient controller is started: straight through, through and keeping a copy, or from the copy.
  datatype BufMode = PassThru | SaveAndPass | CrankDest

  datatype Event =
    | FrameHeader
    | ScanHeader(scan: nat)
    | Pass(scan: nat, gather: bool, mode: BufMode, rows: nat)
    | Trailer

  // A Huffman DC refinement scan sends raw bits: there is nothing to optimize.
  predicate NeedsTables(s: ScanInfo) {
    s.ss != 0 || s.ah == 0
  }

  // The buffer mode of the only data pass that sees the samples, and of every other.
  function ModeOf(n: nat, optimize: bool, transcode: bool, first: bool): BufMode {
    if transcode || !first then CrankDest
    else if n > 1 || optimize then SaveAndPass else PassThru
  }

  // ----- what has to happen for a scan, and for the whole image -----

  function Headers(i: nat): seq<Event> {
    (if i == 0 then [FrameHeader] else []) + [ScanHeader(i)]
  }

  function ScanEvents(scans: seq<ScanInfo>, optimize: bool, transcode: bool, rows: nat, i: nat): seq<Event>
    requires i < |scans|
  {
    var n := |scans|;
    (if optimize && NeedsTables(scans[i]) then [Pass(i, true, ModeOf(n, optimize, transcode, i == 0), rows)] else [])
    + Headers(i) + [Pass(i, false, ModeOf(n, optimize, transcode, i == 0 && !optimize), rows)]
  }

  function EventsUpTo(scans: seq<ScanInfo>, optimize: bool, transcode: bool, rows: nat, i: nat): seq<Event>
    requires i <= |scans|
  {
    if i == 0 then []
    else EventsUpTo(scans, optimize, transcode, rows, i - 1) + ScanEvents(scans, optimize, transcode, rows, i - 1)
  }

  function WholeRun(scans: seq<ScanInfo>, optimize: bool, transcode: bool, rows: nat): seq<Event> {
    EventsUpTo(scans, optimize, transcode, rows, |scans|) + [Trailer]
  }

  // ----- the controller -----

  datatype GlobalState = Scanning | WrCoefs

  class Master {
    const scans: seq<ScanInfo>
    const optimize: bool
    const transcode: bool
    const totalRows: nat

    var passType: PassType
    var scanNumber: nat
    var passNumber: nat
    var totalPasses: nat
    var callPassStartup: bool
    var isLastPass: bool

    // What the other modules were started with: the scan whose parameters are set up, the entropy coder's
    // gather_statistics, the coefficient controller's mode, and the iMCU rows of this pass done so far.
    var curScan: nat
    var gathering: bool
    var mode: BufMode
    var rowsDone: nat

    // Everything written, and every pass over the data, in order.
    ghost var log: seq<Event>

    // jinit_c_master_control, after the script has been validated.
    constructor (scans: seq<ScanInfo>, optimize: bool, transcode: bool, totalRows: nat)
      requires scans != [] && NeedsTables(scans[0]) && totalRows > 0
      ensures this.scans == scans && this.optimize == optimize && this.transcode == transcode && this.totalRows == totalRows
      ensures Valid() && !isLastPass && passNumber == 0 && log == []
      ensures passType == if !transcode then MainPass else if optimize then HuffOptPass else OutputPass
    {
      this.scans, this.optimize, this.transcode, this.totalRows := scans, optimize, transcode, totalRows;
      if transcode {
        passType := if optimize then HuffOptPass else OutputPass;
      } else {
        passType := MainPass;
      }
      scanNumber, passNumber, isLastPass := 0, 0, false;
      if optimize {
        totalPasses := |scans| * 2;
      } else {
        totalPasses := |scans|;
      }
      callPassStartup, curScan, gathering, mode, rowsDone := false, 0, false, PassThru, 0;
      log := [];
    }

    ghost function Done(i: nat): seq<Event>
      requires i <= |scans|
    {
      EventsUpTo(scans, optimize, transcode, totalRows, i)
    }

    // The statistics pass over the current scan, when there is one.
    ghost function Gathered(i: nat): seq<Event>
    {
      [Pass(i, true, ModeOf(|scans|, optimize, transcode, i == 0), totalRows)]
    }

    // Between passes.
    ghost predicate Valid()
      reads this
    {
      && scans != [] && NeedsTables(scans[0]) && totalRows > 0
      && scanNumber <= |scans| && !callPassStartup
      && totalPasses == (if optimize then 2 * |scans| else |scans|)
      && passNumber == (if optimize then 2 * scanNumber + (if passType == OutputPass then 1 else 0) else scanNumber)
      && match passType
         case MainPass => !transcode && scanNumber == 0 && log == []
         case HuffOptPass => optimize && (scanNumber == 0 ==> transcode) && log == Done(scanNumber)
         case OutputPass =>
           if optimize then scanNumber < |scans| && NeedsTables(scans[scanNumber]) && curScan == scanNumber && log == Done(scanNumber) + Gathered(scanNumber)
           else (scanNumber == 0 ==> transcode) && log == Done(scanNumber)
    }

    // Inside a pass: everything is set up for the current scan, and the headers are out if they are due.
    ghost predicate InPass()
      reads this
    {
      && scans != [] && NeedsTables(scans[0]) && totalRows > 0
      && scanNumber < |scans| && curScan == scanNumber && rowsDone <= totalRows
      && totalPasses == (if optimize then 2 * |scans| else |scans|)
      && passNumber == (if optimize then 2 * scanNumber + (if passType == OutputPass then 1 else 0) else scanNumber)
      && isLastPass == (passNumber == totalPasses - 1)
      && gathering == (passType == HuffOptPass || (passType == MainPass && optimize))
      && (passType == MainPass ==> scanNumber == 0 && !transcode)
      && (passType == HuffOptPass ==> optimize && NeedsTables(scans[scanNumber]) && (scanNumber == 0 ==> transcode))
      && (passType == OutputPass && !optimize && scanNumber == 0 ==> transcode)
      && mode == ModeOf(|scans|, optimize, transcode, passType == MainPass)
      && (callPassStartup ==> passType == MainPass && !optimize && rowsDone == 0)
      && log == if gathering || callPassStartup then Done(scanNumber) else Done(scanNumber) + Ready()
    }

    // What must have been logged of the current scan before its data is output.
    ghost function Ready(): seq<Event>
      reads this
    {
      (if optimize && scanNumber < |scans| && NeedsTables(scans[scanNumber]) then Gathered(scanNumber) else [])
      + Headers(scanNumber)
    }

    // select_scan_parameters and per_scan_setup
    method SelectScan()
      requires scanNumber < |scans|
      modifies this`curScan
      ensures curScan == scanNumber
    {
      curScan := scanNumber;
    }

    method PrepareForPass()
      requires Valid() && scanNumber < |scans|
      modifies this
      ensures InPass() && rowsDone == 0 && totalPasses == old(totalPasses) && old(passNumber) <= passNumber
      ensures callPassStartup <==> old(passType) == MainPass && !optimize
      ensures passType == MainPass <==> old(passType) == MainPass
    {
      hide ScanEvents, NeedsTables, Headers;
      rowsDone := 0;
      match passType {
        case MainPass =>
          SelectScan();
          gathering := optimize;
          mode := if totalPasses > 1 then SaveAndPass else PassThru;
          callPassStartup := !optimize;
        case HuffOptPass =>
          SelectScan();
          // DC refinement codes raw bits only, so there is nothing to optimize: on to the output pass at once.
          if NeedsTables(scans[curScan]) {
            gathering, mode, callPassStartup := true, CrankDest, false;
          } else {
            passType := OutputPass;
            passNumber := passNumber + 1;
            StartOutput();
          }
        case OutputPass =>
          StartOutput();
      }
      isLastPass := passNumber == totalPasses - 1;
      assert !gathering && !callPassStartup ==> log == Done(scanNumber) + Ready() by {
        var h := Headers(scanNumber);
        assert [] + h == h;
        assert Done(scanNumber) + (Gathered(scanNumber) + h) == Done(scanNumber) + Gathered(scanNumber) + h;
      }
    }

    // The output_pass branch of prepare_for_pass.
    method StartOutput()
      requires scanNumber < |scans| && (optimize ==> curScan == scanNumber)
      modifies this
      ensures curScan == scanNumber && !gathering && mode == CrankDest && !callPassStartup
      ensures log == old(log) + Headers(scanNumber)
      ensures unchanged(`passType, `scanNumber, `passNumber, `totalPasses, `isLastPass, `rowsDone)
    {
      if !optimize {
        SelectScan();
      }
      gathering, mode := false, CrankDest;
      if scanNumber == 0 {
        log := log + [FrameHeader];
      }
      log := log + [ScanHeader(curScan)];
      callPassStartup := false;
    }

    method PassStartup()
      requires InPass() && callPassStartup
      modifies this`callPassStartup, this`log
      ensures InPass() && !callPassStartup
    {
      callPassStartup := false;
      log := log + [FrameHeader] + [ScanHeader(curScan)];
      assert [FrameHeader] + [ScanHeader(curScan)] == Headers(0) == Ready();
    }

    // jpeg_write_raw_data: one iMCU row of samples, the headers first if this is the first row.
    method WriteRow()
      requires InPass() && passType == MainPass && rowsDone < totalRows
      modifies this`callPassStartup, this`log, this`rowsDone
      ensures InPass() && !callPassStartup && rowsDone == old(rowsDone) + 1
    {
      if callPassStartup {
        PassStartup();
      }
      rowsDone := rowsDone + 1;
    }

    // The iMCU row loop of jpeg_finish_compress.
    method CrankRows()
      requires InPass() && rowsDone == 0 && !callPassStartup
      modifies this`rowsDone
      ensures InPass() && rowsDone == totalRows
    {
      var row := 0;
      while row < totalRows
        invariant InPass() && row == rowsDone <= totalRows
      {
        rowsDone := rowsDone + 1;
        row := row + 1;
      }
    }

    method FinishPass()
      requires InPass() && !callPassStartup && rowsDone == totalRows
      modifies this
      ensures Valid() && passNumber == old(passNumber) + 1 && totalPasses == old(totalPasses)
      ensures isLastPass <==> passNumber == totalPasses
      ensures passType != MainPass
    {
      ghost var s, ready := scanNumber, Ready();
      assert !gathering ==> log == Done(s) + ready;
      log := log + [Pass(curScan, gathering, mode, rowsDone)];
      match passType {
        case MainPass =>
          passType := OutputPass;
          if !optimize {
            scanNumber := scanNumber + 1;
          }
        case HuffOptPass =>
          passType := OutputPass;
        case OutputPass =>
          if optimize {
            passType := HuffOptPass;
          }
          scanNumber := scanNumber + 1;
      }
      passNumber := passNumber + 1;
    }

    // jpeg_finish_compress: every scan has been written, in order, when the trailer is.
    method FinishCompress(state: GlobalState) returns (ok: bool)
      requires state == Scanning ==> InPass() && passType == MainPass
      requires state == WrCoefs ==> Valid() && passType != MainPass && passNumber == 0 && !isLastPass
      modifies this
      ensures ok <==> state == WrCoefs || old(rowsDone) == totalRows
      ensures ok ==> log == WholeRun(scans, optimize, transcode, totalRows) && passNumber == totalPasses
      ensures !ok ==> unchanged(this)
    {
      if state == Scanning {
        if rowsDone < totalRows {
          return false;
        }
        FinishPass();
      }
      while !isLastPass
        invariant Valid() && passType != MainPass && passNumber <= totalPasses
        invariant isLastPass <==> passNumber == totalPasses
        decreases totalPasses - passNumber
      {
        PrepareForPass();
        CrankRows();
        FinishPass();
      }
      log := log + [Trailer];
      return true;
    }
  }

  // jpeg_start_compress, all the sample rows, jpeg_finish_compress.
  method Compress(scans: seq<ScanInfo>, optimize: bool, totalRows: nat) returns (master: Master)
    requires scans != [] && NeedsTables(scans[0]) && totalRows > 0
    ensures master.log == WholeRun(scans, optimize, false, totalRows) && master.passNumber == master.totalPasses
  {
    master := new Master(scans, optimize, false, totalRows);
    master.PrepareForPass();
    while master.rowsDone < totalRows
      invariant fresh(master) && master.InPass() && master.passType == MainPass
      invariant master.scans == scans && master.optimize == optimize && !master.transcode && master.totalRows == totalRows
    {
      master.WriteRow();
    }
    var ok := master.FinishCompress(Scanning);
  }

  // jpeg_write_coefficients and jpeg_finish_compress: no pass over samples.
  method Transcode(scans: seq<ScanInfo>, optimize: bool, totalRows: nat) returns (master: Master)
    requires scans != [] && NeedsTables(scans[0]) && totalRows > 0
    ensures master.log == WholeRun(scans, optimize, true, totalRows) && master.passNumber == master.totalPasses
  {
    master := new Master(scans, optimize, true, totalRows);
    var ok := master.FinishCompress(WrCoefs);
  }

  // ----- what a whole run amounts to -----

  // What ends up in the file.
  function Written(log: seq<Event>): seq<Event> {
    if log == [] then []
    else
      var e, rest := log[0], Written(log[1..]);
      if e.Pass? && e.gather then rest else [e] + rest
  }

  // The scans statistics were gathered for.
  function GatheredScans(log: seq<Event>): seq<nat> {
    if log == [] then []
    else
      var e, rest := log[0], GatheredScans(log[1..]);
      if e.Pass? && e.gather then [e.scan] + rest else rest
  }

  lemma {:induction false} WrittenConcat(a: seq<Event>, b: seq<Event>)
    ensures Written(a + b) == Written(a) + Written(b)
    ensures GatheredScans(a + b) == GatheredScans(a) + GatheredScans(b)
  {
    if a == [] {
      assert a + b == b;
    } else {
      assert (a + b)[1..] == a[1..] + b;
      WrittenConcat(a[1..], b);
    }
  }

  function NeedingTables(scans: seq<ScanInfo>, i: nat): seq<nat>
    requires i <= |scans|
  {
    if i == 0 then []
    else NeedingTables(scans, i - 1) + if NeedsTables(scans[i - 1]) then [i - 1] else []
  }

  // One frame header, then each scan's header and data once, in script order.
  function FileUpTo(scans: seq<ScanInfo>, optimize: bool, transcode: bool, rows: nat, i: nat): seq<Event>
    requires i <= |scans|
  {
    if i == 0 then []
    else
      FileUpTo(scans, optimize, transcode, rows, i - 1)
      + (Headers(i - 1) + [Pass(i - 1, false, ModeOf(|scans|, optimize, transcode, i == 1 && !optimize), rows)])
  }

  lemma KeepOne(e: Event)
    requires !(e.Pass? && e.gather)
    ensures Written([e]) == [e] && GatheredScans([e]) == []
  {
    assert [e][1..] == [];
  }

  lemma ScanWrites(scans: seq<ScanInfo>, optimize: bool, transcode: bool, rows: nat, i: nat)
    requires i < |scans|
    ensures Written(ScanEvents(scans, optimize, transcode, rows, i))
      == Headers(i) + [Pass(i, false, ModeOf(|scans|, optimize, transcode, i == 0 && !optimize), rows)]
    ensures GatheredScans(ScanEvents(scans, optimize, transcode, rows, i))
      == if optimize && NeedsTables(scans[i]) then [i] else []
  {
    var g := Pass(i, true, ModeOf(|scans|, optimize, transcode, i == 0), rows);
    var p := Pass(i, false, ModeOf(|scans|, optimize, transcode, i == 0 && !optimize), rows);
    KeepOne(p);
    KeepOne(FrameHeader);
    KeepOne(ScanHeader(i));
    WrittenConcat([FrameHeader], [ScanHeader(i)]);
    WrittenConcat(Headers(i), [p]);
    WrittenConcat([g], Headers(i) + [p]);
    assert [g][1..] == [];
    assert [] + (Headers(i) + [p]) == Headers(i) + [p];
    assert [] + [ScanHeader(i)] == [ScanHeader(i)];
    assert [g] + Headers(i) + [p] == [g] + (Headers(i) + [p]);
  }

  // The file holds the scans in order; statistics are gathered for exactly the scans that use them, in order.
  lemma {:induction false} RunWrites(scans: seq<ScanInfo>, optimize: bool, transcode: bool, rows: nat, i: nat)
    requires i <= |scans|
    ensures Written(EventsUpTo(scans, optimize, transcode, rows, i)) == FileUpTo(scans, optimize, transcode, rows, i)
    ensures GatheredScans(EventsUpTo(scans, optimize, transcode, rows, i)) == if optimize then NeedingTables(scans, i) else []
  {
    hide ScanEvents, ModeOf, NeedsTables, Headers;
    if i > 0 {
      hide Written, GatheredScans;
      var before, these := EventsUpTo(scans, optimize, transcode, rows, i - 1), ScanEvents(scans, optimize, transcode, rows, i - 1);
      RunWrites(scans, optimize, transcode, rows, i - 1);
      assert EventsUpTo(scans, optimize, transcode, rows, i) == before + these;
      hide EventsUpTo;
      WrittenConcat(before, these);
      ScanWrites(scans, optimize, transcode, rows, i - 1);
    }
  }

  // No pass reads the copy of the coefficients before one has made it.
  predicate CopyFirst(log: seq<Event>, copied: bool) {
    log == [] ||
    ((log[0].Pass? && log[0].mode == CrankDest ==> copied) && CopyFirst(log[1..], copied || Copies(log[0])))
  }

  predicate Copies(e: Event) {
    e.Pass? && e.mode == SaveAndPass
  }

  predicate Copied(log: seq<Event>) {
    exists k :: 0 <= k < |log| && Copies(log[k])
  }

  lemma {:induction false} CopyConcat(a: seq<Event>, b: seq<Event>, copied: bool)
    requires CopyFirst(a, copied) && CopyFirst(b, copied || Copied(a))
    ensures CopyFirst(a + b, copied)
  {
    if a == [] {
      assert a + b == b;
    } else {
      assert (a + b)[1..] == a[1..] + b;
      if Copied(a) && !Copies(a[0]) {
        var k :| 0 <= k < |a| && Copies(a[k]);
        assert a[1..][k - 1] == a[k];
      }
      if Copied(a[1..]) {
        var k :| 0 <= k < |a[1..]| && Copies(a[1..][k]);
        assert a[k + 1] == a[1..][k];
      }
      CopyMore(b, copied || Copied(a), (copied || Copies(a[0])) || Copied(a[1..]));
      CopyConcat(a[1..], b, copied || Copies(a[0]));
    }
  }

  lemma {:induction false} CopyMore(log: seq<Event>, c1: bool, c2: bool)
    requires CopyFirst(log, c1) && (c1 ==> c2)
    ensures CopyFirst(log, c2)
  {
    if log != [] { CopyMore(log[1..], c1 || Copies(log[0]), c2 || Copies(log[0])); }
  }

  lemma CopyOne(e: Event, copied: bool)
    ensures CopyFirst([e], copied) <==> (e.Pass? && e.mode == CrankDest ==> copied)
    ensures Copied([e]) <==> Copies(e)
  {
    assert [e][0] == e && [e][1..] == [];
  }

  lemma CopiedConcat(a: seq<Event>, b: seq<Event>)
    requires Copied(a) || Copied(b)
    ensures Copied(a + b)
  {
    if Copied(a) {
      var k :| 0 <= k < |a| && Copies(a[k]);
      assert (a + b)[k] == a[k];
    } else {
      var k :| 0 <= k < |b| && Copies(b[k]);
      assert (a + b)[|a| + k] == b[k];
    }
  }

  lemma HeadersCopy(i: nat, copied: bool)
    ensures CopyFirst(Headers(i), copied) && !Copied(Headers(i))
  {
    CopyOne(FrameHeader, copied);
    CopyOne(ScanHeader(i), copied);
    CopyMore([ScanHeader(i)], copied, copied || Copied([FrameHeader]));
    CopyConcat([FrameHeader], [ScanHeader(i)], copied);
    assert [] + [ScanHeader(i)] == [ScanHeader(i)];
  }

  lemma ScanCopies(scans: seq<ScanInfo>, optimize: bool, transcode: bool, rows: nat, i: nat)
    requires i < |scans| && NeedsTables(scans[0])
    ensures CopyFirst(ScanEvents(scans, optimize, transcode, rows, i), transcode || (i > 0 && (|scans| > 1 || optimize)))
    ensures i == 0 && !transcode && (|scans| > 1 || optimize) ==> Copied(ScanEvents(scans, optimize, transcode, rows, i))
  {
    hide Copied, Headers, NeedsTables;
    var copied := transcode || (i > 0 && (|scans| > 1 || optimize));
    var g := Pass(i, true, ModeOf(|scans|, optimize, transcode, i == 0), rows);
    var p := Pass(i, false, ModeOf(|scans|, optimize, transcode, i == 0 && !optimize), rows);
    var after := copied || (optimize && NeedsTables(scans[i]) && Copies(g));
    hide CopyFirst, ModeOf;
    CopyOne(g, copied);
    CopyOne(p, after);
    HeadersCopy(i, after);
    CopyConcat(Headers(i), [p], after);
    if Copies(p) { CopiedConcat(Headers(i), [p]); }
    if optimize && NeedsTables(scans[i]) {
      CopyConcat([g], Headers(i) + [p], copied);
      if Copies(g) { CopiedConcat([g], Headers(i) + [p]); }
      assert [g] + Headers(i) + [p] == [g] + (Headers(i) + [p]);
    } else {
      assert [] + Headers(i) + [p] == Headers(i) + [p];
    }
  }

  lemma {:induction false} RunCopies(scans: seq<ScanInfo>, optimize: bool, transcode: bool, rows: nat, i: nat)
    requires i <= |scans| && scans != [] && NeedsTables(scans[0])
    ensures CopyFirst(EventsUpTo(scans, optimize, transcode, rows, i), transcode)
    ensures i > 0 && !transcode && (|scans| > 1 || optimize) ==> Copied(EventsUpTo(scans, optimize, transcode, rows, i))
  {
    hide ScanEvents, NeedsTables;
    if i > 0 {
      RunCopies(scans, optimize, transcode, rows, i - 1);
      ScanCopies(scans, optimize, transcode, rows, i - 1);
      var before, these := EventsUpTo(scans, optimize, transcode, rows, i - 1), ScanEvents(scans, optimize, transcode, rows, i - 1);
      CopyMore(these, transcode || (i - 1 > 0 && (|scans| > 1 || optimize)), transcode || Copied(before));
      CopyConcat(before, these, transcode);
      if Copied(before) || Copied(these) { CopiedConcat(before, these); }
    }
  }

  // The script check guarantees what the controller relies on: the first scan is not a refinement.
  lemma FirstScanFresh(n: nat, scans: seq<ScanInfo>)
    requires scans != [] && (if IsProgressive(scans) then LegalProgressive(n, scans) else LegalSequential(n, scans))
    ensures NeedsTables(scans[0])
  {
    if IsProgressive(scans) {
      assert GoodProgScan(n, PosAfter(n, scans, 0), scans[0]);
      assert Follows(Unsent(n)[scans[0].comps[0]], scans[0]);
      assert Unsent(n)[scans[0].comps[0]][scans[0].ss] == -1;
    } else {
      assert GoodSeqScan(n, SentBy(scans, 0), scans[0]);
    }
  }
}
