/**
 Where the session machine keeps less than it seems to promise: requests that arrive
 while records are being processed, a filter change during reading, a stopped read
 followed by a redissection.  And which frame a rescan selects, undisturbed or not.
 */
module SessionLimits {
  import opened Basics
  import opened Frames
  import opened Sessions
  import opened SessionRuns
  import opened SessionScripts

  /* ---------- requests that nobody serves ---------- */

  /** No pass is running, and yet a request is waiting. */
  predicate Wedged(s: Session) {
    !s.readLock && s.queued != NoRescan
  }

  /** The packets as the user sees them. */
  predicate SameView(s: Session, r: Session) {
    && r.epan == s.epan && r.frames == s.frames && r.packetList == s.packetList
    && r.book == s.book && r.currentFrame == s.currentFrame && r.state == s.state
  }

  lemma {:induction false} ProcessLoopKeeps(w: World, s: Session, p: PspParams, k: nat)
    requires k <= |s.frames|
    ensures var r := ProcessLoop(w, s, p, k).0;
            && r.epan == s.epan && r.frames == s.frames && r.packetList == s.packetList && r.book == s.book
            && r.currentFrame == s.currentFrame && r.readLock == s.readLock
            && (s.queued != NoRescan ==> r.queued != NoRescan)
            && (r.queued == NoRescan ==> r.dfilter == s.dfilter && r.asked == s.asked)
    decreases |s.frames| - k
  {
    hide Progress;
    if k < |s.frames| {
      ProgressUndisturbed(w, s);
      var s1 := if p.showProgress then Progress(w, s) else s;
      if !s1.stopFlag {
        ProcessLoopKeeps(w, s1, p, k + 1);
      }
    }
  }

  /**
   process_specified_records leaves the packets alone.  It leaves the session wedged if and
   only if one of the batches delivered to it asks for a pass; a requested filter is then
   already the current one although no frame has been judged by it.
   */
  lemma {:induction false} ProcessMayWedge(w: World, s: Session, p: PspParams)
    requires Idle(w, s)
    ensures var r := Process(w, s, p).0;
            && !r.readLock && r.epan == s.epan && r.frames == s.frames && r.packetList == s.packetList
            && (Wedged(r) <==> AskedIn(w, s, s.env[..ProcessPoints(w, p, |s.frames|, s.env, 0)]))
            && (Wedged(r) || (r.dfilter == s.dfilter && r.asked == s.asked))
  {
    hide AskedIn, ProcessPoints, ProcessLoop;
    ProcessLoopKeeps(w, s.(readLock := true, stopFlag := false), p, 0);
    StrandedExactly(w, s, p);
  }

  lemma DeliverSingle(w: World, s: Session, e: Event)
    ensures DeliverAll(w, s, [e]) == Deliver(w, s, e)
  {
    assert [e][..0] == [];
  }

  /** A filter change at the first progress point does it, whatever is processed afterwards. */
  lemma {:induction false} FilterWhileProcessingWedges(w: World, s: Session, p: PspParams, text: Option<string>, force: bool)
    requires Idle(w, s) && s.frames != [] && p.showProgress
    requires s.env != [] && s.env[0] == [FilterRequest(text, force)] && !Ignored(w, s, text, force)
    ensures Wedged(Process(w, s, p).0)
  {
    var s0 := s.(readLock := true, stopFlag := false);
    var s1 := Progress(w, s0);
    DeliverSingle(w, s0.(env := s.env[1..]), FilterRequest(text, force));
    assert s1 == Deliver(w, s0.(env := s.env[1..]), FilterRequest(text, force));
    assert s1.queued == Scan && !s1.stopFlag;
    if p.range(1) == ProcessThis || p.range(1) == ProcessNext {
      ProcessLoopKeeps(w, s1, p, 1);
    }
  }

  /** Requests made while the session is wedged: filter changes and redissections. */
  function Requests(w: World, s: Session, ops: seq<Op>): Session
    requires forall i :: 0 <= i < |ops| ==> !ops[i].Reload?
  {
    if ops == [] then s
    else
      var t := Requests(w, s, ops[..|ops| - 1]);
      match ops[|ops| - 1]
      case UserFilter(text, force) => Filter(w, t, text, force)
      case UserRedissect => RedissectPackets(w, t)
  }

  /** From then on no filter change and no redissection request ever starts a pass. */
  lemma {:induction false} WedgedForGood(w: World, s: Session, ops: seq<Op>)
    requires Wedged(s) && forall i :: 0 <= i < |ops| ==> !ops[i].Reload?
    ensures Wedged(Requests(w, s, ops)) && SameView(s, Requests(w, s, ops))
  {
    hide Rescan;
    if ops != [] {
      WedgedForGood(w, s, ops[..|ops| - 1]);
    }
  }

  /* ---------- requests during cf_read ---------- */

  /** A record as a frame that is not processed; none if the read filter rejects it. */
  function FrameOf(rec: Record, cumBytes: nat): seq<Frame> {
    if rec.wanted
    then [Frame(rec.pktLen, rec.absTs, false, false, false, (cumBytes + rec.pktLen) % U32, 0, 0)]
    else []
  }

  /** The frames that reading the records adds when nothing is processed. */
  function FramesOf(records: seq<Record>, cumBytes: nat): seq<Frame> {
    if records == [] then [] else FrameOf(records[0], cumBytes) + FramesOf(records[1..], cumBytes)
  }

  lemma RecordWaiting(w: World, s: Session, filter: Option<string>, rec: Record)
    requires s.queued != NoRescan && s.book.ref <= |s.frames|
    ensures RecordAdded(w, s, filter, rec) == s.(frames := s.frames + FrameOf(rec, s.book.cumBytes))
    ensures |FrameOf(rec, s.book.cumBytes)| <= 1
  {
    hide Verdict, Added;
    if !rec.wanted {
      assert s.frames + [] == s.frames;
    }
  }

  /** With a request waiting and no more to come, the rest of the file is read but neither dissected nor listed. */
  lemma {:induction false} RestIsNotListed(w: World, s: Session, filter: Option<string>, records: seq<Record>, p: ReadParams)
    requires s.queued != NoRescan && s.env == [] && !s.stopFlag && s.state != ReadAborted && s.book.ref <= |s.frames|
    requires !p.sizeKnown || |s.frames| + |records| <= p.maxRecords
    ensures ReadLoop(w, s, filter, records, p)
         == (s.(frames := s.frames + FramesOf(records, s.book.cumBytes)), EndOfFile)
    decreases |records|
  {
    hide ReadLoop, RecordAdded, FrameOf;
    ReadStep(w, s, filter, records, p);
    if records == [] {
      assert s.frames + [] == s.frames;
    } else {
      RecordWaiting(w, s, filter, records[0]);
      var s1 := RecordAdded(w, s, filter, records[0]);
      RestIsNotListed(w, s1, filter, records[1..], p);
      Regrouped(s.frames, FrameOf(records[0], s.book.cumBytes), FramesOf(records[1..], s.book.cumBytes));
    }
  }

  lemma Regrouped(a: seq<Frame>, b: seq<Frame>, c: seq<Frame>)
    ensures a + b + c == a + (b + c)
  {
  }

  lemma {:induction false} QuietLoop(w: World, s: Session, filter: Option<string>, redissect: bool, sel: Selection, k: nat)
    requires k <= |s.frames| && s.book.ref <= k && s.env == [] && s.queued == NoRescan
    ensures var p := ScanLoop(w, s, filter, redissect, sel, k);
            && p.queued == NoRescan && p.s.queued == NoRescan && p.s.env == [] && p.s.epan == s.epan && p.s.stopFlag == s.stopFlag
            && p.s.currentFrame == s.currentFrame && p.s.dfilter == s.dfilter && p.s.state == s.state
            && (!redissect ==> p.s.packetList == s.packetList) && p.s.asked == s.asked
    decreases |s.frames| - k
  {
    hide AddedFrame, SelectionAfter, Verdict;
    if k < |s.frames| && !s.stopFlag && w.readable(k + 1) {
      var s2 := if redissect then ResetAt(s, k) else s;
      var s3 := Added(s2, k, Verdict(w, filter, s2.epan)(k + 1), redissect);
      QuietLoop(w, s3, filter, redissect, SelectionAfter(sel, s3.frames, k), k + 1);
    }
  }

  /** Undisturbed, a rescan is one pass. */
  lemma {:induction false} QuietRescan(w: World, s: Session, redissect: bool)
    requires s.env == []
    ensures var p, r := PassOf(w, s, redissect), Rescan(w, s, redissect);
            && p.queued == NoRescan && r == Finished(p, redissect) && !r.stopFlag && r.queued == NoRescan && !r.readLock
            && r.epan == s.epan + (if redissect then 1 else 0)
            && r.state == s.state && r.dfilter == s.dfilter
            && (!redissect ==> r.packetList == s.packetList)
  {
    hide ScanLoop, Forgotten, Chosen, FirstRow;
    QuietLoop(w, Started(s, redissect), s.dfilter, redissect, Selection(s.currentFrame, false, false, 0, 0), 0);
  }

  /**
   A plain rescan may leave frames up to date that it cannot read: here the second of two, which is
   not displayed and was judged by the same filter before.
   */
  lemma {:induction false} RightByChance(w: World, s: Session)
    requires Idle(w, s) && s.state != Closed && UpToDate(w, s) && s.env == [] && |s.frames| == 2
    requires w.readable(1) && !w.readable(2) && !s.frames[1].Displayed()
    ensures var r := Rescan(w, s, false);
            !r.stopFlag && UpToDate(w, r) && !Readable(w, |s.frames|)
  {
    hide AddedFrame, BookAfter, ScannedTo;
    QuietRescan(w, s, false);
    PassIs(w, s, false);
    var t, sel := Started(s, false), Selection(s.currentFrame, false, false, 0, 0);
    StartedInv(w, s, false);
    ScanLoopIs(w, t, s.dfilter, false, sel, s.packetList, 0);
    ScanLoopReads(w, t, s.dfilter, false, sel, 0);
    var p := PassOf(w, s, false);
    assert p.k == 1;
    assert ScannedTo(w, p.s, s.dfilter, 1);
    FinishedKeeps(p, false);
    var r := Finished(p, false);
    SameScanned(w, p.s, r, s.dfilter, 1);
    assert p.s.frames[1] == s.frames[1];
    StillUpToDate(w, s, r);
  }
  lemma SameScanned(w: World, s: Session, r: Session, filter: Option<string>, k: nat)
    requires ScannedTo(w, s, filter, k) && r.frames == s.frames && r.book == s.book && r.epan == s.epan
    ensures ScannedTo(w, r, filter, k)
  {
    hide FrameMatches, BookMatches, PacketLens, Verdict;
  }

  lemma StillUpToDate(w: World, s: Session, r: Session)
    requires UpToDate(w, s) && ScannedTo(w, r, r.dfilter, 1) && r.epan == s.epan && r.dfilter == s.dfilter
    requires |s.frames| == |r.frames| == 2 && !s.frames[1].Displayed() && r.frames[1] == s.frames[1] && SameCapture(s.frames, r.frames)
    ensures UpToDate(w, r)
  {
    assert s.frames[0].passed == r.frames[0].passed;
    assert FrameMatches(s.frames, 1) && FrameMatches(r.frames, 0);
  }

  /**
   A filter change at the first progress point of cf_read, and nothing else: every frame is
   read and judged, success is reported, and the packet list stays empty.
   */
  lemma {:induction false} EarlyFilterEmptiesTheList(w: World, s: Session, records: seq<Record>, p: ReadParams, text: Option<string>, force: bool)
    requires Opened(w, s) && s.queued == NoRescan && records != [] && p.sizeKnown && |records| <= p.maxRecords && !p.failed
    requires s.env == [[FilterRequest(text, force)]] && !Ignored(w, s, text, force)
    ensures var (r, status) := Read(w, s, records, p);
            && status == ReadOk && r.packetList == []
            && |r.frames| == |FramesOf(records, 0)| && r.dfilter == WithFilter(w, s, text).dfilter
            && (AllReadable(w) && FitsFile(records) ==> UpToDate(w, r))
  {
    hide Rescan, Loaded, UpToDate, AfterLoop, ReadLoop, ListComplete;
    EarlyFilterLoop(w, s, records, p, text, force);
    var loop := AfterLoop(w, s, records, p).0;
    ReadAfterLoop(w, s, records, p);
    LoadedIs(loop);
    QuietRescan(w, Loaded(loop), false);
    RescanLength(w, Loaded(loop), false);
    if AllReadable(w) && FitsFile(records) {
      ReadIs(w, s, records, p);
    }
  }

  lemma EarlyFilterLoop(w: World, s: Session, records: seq<Record>, p: ReadParams, text: Option<string>, force: bool)
    requires Opened(w, s) && s.queued == NoRescan && records != [] && p.sizeKnown && |records| <= p.maxRecords
    requires s.env == [[FilterRequest(text, force)]] && !Ignored(w, s, text, force)
    ensures var (loop, end) := AfterLoop(w, s, records, p);
            && end == EndOfFile && loop.frames == FramesOf(records, 0) && loop.packetList == [] && loop.env == []
            && loop.queued == Scan && !loop.stopFlag && loop.dfilter == WithFilter(w, s, text).dfilter
  {
    hide ReadLoop, RecordAdded, FrameOf, FramesOf, Progress, Ignored;
    var s0 := s.(readLock := true, stopFlag := false);
    SameIgnored(w, s, s0, FilterRequest(text, force));
    FirstRequest(w, s0, text, force);
    var s1 := Progress(w, s0);
    ReadStep(w, s0, s.dfilter, records, p);
    RecordWaiting(w, s1, s.dfilter, records[0]);
    var s2 := RecordAdded(w, s1, s.dfilter, records[0]);
    RestIsNotListed(w, s2, s.dfilter, records[1..], p);
    FirstFrameOf(records, 0);
    assert s2.frames == FrameOf(records[0], 0);
  }

  lemma FirstFrameOf(records: seq<Record>, cumBytes: nat)
    requires records != []
    ensures FramesOf(records, cumBytes) == FrameOf(records[0], cumBytes) + FramesOf(records[1..], cumBytes)
  {
  }

  lemma FirstRequest(w: World, s: Session, text: Option<string>, force: bool)
    requires s.queued == NoRescan && s.env == [[FilterRequest(text, force)]] && !Ignored(w, s, text, force)
    ensures Progress(w, s) == WithFilter(w, s, text).(queued := Scan, env := [])
  {
    assert s.env[1..] == [];
    DeliverSingle(w, s.(env := []), FilterRequest(text, force));
  }

  /** What cf_read does when its loop has read everything and left a scan queued. */
  lemma ReadAfterLoop(w: World, s: Session, records: seq<Record>, p: ReadParams)
    requires !s.readLock && s.book.ref <= |s.frames| && !p.failed
    ensures var (loop, end) := AfterLoop(w, s, records, p);
            end == EndOfFile && loop.queued == Scan ==>
              var r := Rescan(w, Loaded(loop), false);
              Read(w, s, records, p) == (r, if r.stopFlag then ReadError else ReadOk)
  {
    hide Rescan, ReadLoop;
    LoadedIs(AfterLoop(w, s, records, p).0);
  }

  lemma LoadedIs(s: Session)
    ensures Loaded(s) == s.(state := ReadDone, readLock := false, currentFrame := Loaded(s).currentFrame)
  {
  }

  lemma RescanLength(w: World, s: Session, redissect: bool)
    requires s.env == []
    ensures |Rescan(w, s, redissect).frames| == |s.frames|
  {
    hide PassOf, Forgotten, Chosen, FirstRow;
    QuietRescan(w, s, redissect);
  }

  /**
   Reloading a wedged session whose queued request is a plain scan reads the file into an
   empty packet list as well, with no request made during the reading at all.
   */
  lemma {:induction false} ReloadingWhenWedged(w: World, s: Session, records: seq<Record>, p: ReadParams)
    requires Opened(w, s) && s.queued == Scan && s.env == [] && !p.failed
    requires !p.sizeKnown || |records| <= p.maxRecords
    ensures var (r, status) := Read(w, s, records, p);
            status == ReadOk && r.packetList == [] && |r.frames| == |FramesOf(records, 0)|
  {
    hide Rescan, Loaded;
    RestIsNotListed(w, s.(readLock := true, stopFlag := false), s.dfilter, records, p);
    var loop := AfterLoop(w, s, records, p).0;
    assert loop.frames == FramesOf(records, 0);
    ReadAfterLoop(w, s, records, p);
    LoadedIs(loop);
    QuietRescan(w, Loaded(loop), false);
    RescanLength(w, Loaded(loop), false);
  }

  /**
   A read that the user stops is reported as complete if a redissection was asked for as
   well: the rescan that serves it clears the stop flag before cf_read looks at it.
   */
  lemma {:induction false} StopIsForgotten(w: World, s: Session, records: seq<Record>, p: ReadParams)
    requires Opened(w, s) && s.queued == NoRescan && records != [] && p.sizeKnown && p.maxRecords > 0 && !p.failed
    requires s.env == [[Stop, RedissectRequest]]
    ensures var (r, status) := Read(w, s, records, p);
            AfterLoop(w, s, records, p).1 == Stopped && status == ReadOk && r.frames == []
  {
    hide Rescan, Loaded;
    var s0 := s.(readLock := true, stopFlag := false);
    var t := s0.(env := []);
    assert s0.env[1..] == [];
    DeliverSingle(w, t, Stop);
    assert [Stop, RedissectRequest][..1] == [Stop];
    var s1 := Progress(w, s0);
    assert s1 == t.(stopFlag := true, queued := Redissect, asked := s.epan);
    var loop := AfterLoop(w, s, records, p).0;
    assert loop == s1;
    LoadedIs(loop);
    QuietRescan(w, Loaded(loop), true);
    RescanLength(w, Loaded(loop), true);
  }

  /* ---------- the selected frame ---------- */

  /** The least passed frame among lo+1..k, 0 if there is none. */
  function FirstPassed(fs: seq<Frame>, lo: nat, k: nat): (r: nat)
    requires k <= |fs|
    ensures r == 0 || (lo < r <= k && fs[r - 1].passed)
    ensures forall i | lo <= i < (if r == 0 then k else r - 1) :: !fs[i].passed
  {
    if k <= lo then 0
    else if FirstPassed(fs, lo, k - 1) > 0 then FirstPassed(fs, lo, k - 1)
    else if fs[k - 1].passed then k else 0
  }

  /**
   Where a pass that has gone over the first k frames moves the selection: the frame itself, the
   last passed frame before it, or the first after it. Frame k does not count while the
   selected one is still to come.
   */
  function Nearby(fs: seq<Frame>, wanted: nat, k: nat): (r: nat)
    requires 1 <= wanted <= |fs| && k <= |fs|
    ensures r == 0 || (r <= k && fs[r - 1].passed)
    ensures r == 0 <==> forall i | 0 <= i < (if wanted <= k then k else k - 1) :: !fs[i].passed
  {
    if wanted > k then (if k == 0 then 0 else LatestPassed(fs, k - 1))
    else if fs[wanted - 1].passed then wanted
    else if LatestPassed(fs, wanted - 1) > 0 then LatestPassed(fs, wanted - 1)
    else FirstPassed(fs, wanted, k)
  }

  /** The frames remembered at the head of the loop, before frame k + 1. */
  predicate SelectionInv(fs: seq<Frame>, sel: Selection, wanted: nat, k: nat) {
    && k <= |fs| && sel.wanted == wanted <= |fs|
    && sel.seen == (1 <= wanted <= k)
    && sel.hit == (sel.seen && fs[wanted - 1].passed)
    && sel.preceding == (if sel.seen then LatestPassed(fs, wanted - 1) else if k == 0 then 0 else LatestPassed(fs, k - 1))
    && sel.following == (if sel.seen then FirstPassed(fs, wanted, k) else 0)
  }

  /** LatestPassed and FirstPassed look at the first k frames only. */
  lemma {:induction false} SameLatest(fs: seq<Frame>, gs: seq<Frame>, k: nat)
    requires k <= |fs| && k <= |gs| && forall i | 0 <= i < k :: gs[i].passed == fs[i].passed
    ensures LatestPassed(gs, k) == LatestPassed(fs, k)
  {
    if k > 0 {
      SameLatest(fs, gs, k - 1);
    }
  }

  lemma {:induction false} SameFirst(fs: seq<Frame>, gs: seq<Frame>, lo: nat, k: nat)
    requires k <= |fs| && k <= |gs| && forall i | 0 <= i < k :: gs[i].passed == fs[i].passed
    ensures FirstPassed(gs, lo, k) == FirstPassed(fs, lo, k)
  {
    if k > 0 {
      SameFirst(fs, gs, lo, k - 1);
    }
  }

  lemma SamePassedTo(fs: seq<Frame>, gs: seq<Frame>, wanted: nat, k: nat)
    requires k <= |fs| == |gs| && gs[..k] == fs[..k]
    ensures 0 < k ==> LatestPassed(gs, k - 1) == LatestPassed(fs, k - 1)
    ensures FirstPassed(gs, wanted, k) == FirstPassed(fs, wanted, k)
    ensures 1 <= wanted <= k ==>
      LatestPassed(gs, wanted - 1) == LatestPassed(fs, wanted - 1) && gs[wanted - 1] == fs[wanted - 1]
  {
    hide FirstPassed, LatestPassed;
    forall i | 0 <= i < k ensures gs[i] == fs[i] {
      assert gs[i] == gs[..k][i] == fs[..k][i];
    }
    SameFirst(fs, gs, wanted, k);
    if k > 0 {
      SameLatest(fs, gs, k - 1);
    }
    if 1 <= wanted <= k {
      SameLatest(fs, gs, wanted - 1);
    }
  }

  lemma SelectionSame(fs: seq<Frame>, gs: seq<Frame>, sel: Selection, wanted: nat, k: nat)
    requires SelectionInv(fs, sel, wanted, k) && |gs| == |fs| && gs[..k] == fs[..k]
    ensures SelectionInv(gs, sel, wanted, k)
  {
    hide FirstPassed, LatestPassed;
    SamePassedTo(fs, gs, wanted, k);
  }

  lemma SelectionStep(fs: seq<Frame>, gs: seq<Frame>, sel: Selection, wanted: nat, k: nat)
    requires SelectionInv(fs, sel, wanted, k) && k < |fs| == |gs| && gs[..k] == fs[..k]
    ensures SelectionInv(gs, SelectionAfter(sel, gs, k), wanted, k + 1)
  {
    hide SelectionInv, SelectionAfter;
    SelectionSame(fs, gs, sel, wanted, k);
    SelectionStepSame(gs, sel, wanted, k);
  }

  lemma SelectionStepSame(fs: seq<Frame>, sel: Selection, wanted: nat, k: nat)
    requires SelectionInv(fs, sel, wanted, k) && k < |fs|
    ensures SelectionInv(fs, SelectionAfter(sel, fs, k), wanted, k + 1)
  {
    hide FirstPassed, LatestPassed;
    if k > 0 {
      LatestPassedStep(fs, k - 1);
    } else {
      LatestPassedStep(fs, 0);
    }
    FirstPassedStep(fs, wanted, k);
  }

  lemma LatestPassedStep(fs: seq<Frame>, k: nat)
    requires k < |fs|
    ensures LatestPassed(fs, k + 1) == if fs[k].passed then k + 1 else LatestPassed(fs, k)
    ensures LatestPassed(fs, 0) == 0
  {
  }

  lemma FirstPassedStep(fs: seq<Frame>, lo: nat, k: nat)
    requires k < |fs|
    ensures FirstPassed(fs, lo, k + 1) ==
            if k < lo then 0 else if FirstPassed(fs, lo, k) > 0 then FirstPassed(fs, lo, k) else if fs[k].passed then k + 1 else 0
    ensures k <= lo ==> FirstPassed(fs, lo, k) == 0
  {
  }

  /** However a pass ends, it remembers the frames as it should for those it went over. */
  lemma {:induction false} ScanLoopSelects(w: World, s: Session, filter: Option<string>, redissect: bool, sel: Selection, wanted: nat, k: nat)
    requires k <= |s.frames| && s.book.ref <= k && SelectionInv(s.frames, sel, wanted, k)
    ensures var p := ScanLoop(w, s, filter, redissect, sel, k);
            SelectionInv(p.s.frames, p.sel, wanted, p.k) && p.s.currentFrame == s.currentFrame
    decreases |s.frames| - k
  {
    hide AddedFrame, SelectionAfter, SelectionInv, Verdict, Progress;
    if k < |s.frames| {
      ProgressUndisturbed(w, s);
      var s1 := Progress(w, s);
      if s1.queued == NoRescan && !s1.stopFlag {
        var s2 := if redissect then ResetAt(s1, k) else s1;
        assert s2.frames[..k] == s.frames[..k];
        if w.readable(k + 1) {
          var s3 := Added(s2, k, Verdict(w, filter, s2.epan)(k + 1), redissect);
          assert s3.frames[..k] == s.frames[..k];
          SelectionStep(s.frames, s3.frames, sel, wanted, k);
          ScanLoopSelects(w, s3, filter, redissect, SelectionAfter(sel, s3.frames, k), wanted, k + 1);
        } else {
          SelectionSame(s.frames, s2.frames, sel, wanted, k);
        }
      }
    }
  }

  /** The frames as far as selecting looks at them: those from lo to k are judged, the others as they were. */
  predicate JudgedFrom(fs: seq<Frame>, gs: seq<Frame>, verdict: nat -> bool, lo: nat, k: nat) {
    |gs| == |fs| &&
    forall i | 0 <= i < |fs| ::
      gs[i].refTime == fs[i].refTime && gs[i].passed == if lo <= i < k then verdict(i + 1) else fs[i].passed
  }

  lemma {:induction false} ScanLoopJudges(w: World, s: Session, filter: Option<string>, redissect: bool, sel: Selection, k: nat)
    requires k <= |s.frames| && s.book.ref <= k
    ensures var p := ScanLoop(w, s, filter, redissect, sel, k);
            JudgedFrom(s.frames, p.s.frames, Verdict(w, filter, s.epan), k, p.k)
    decreases |s.frames| - k
  {
    hide SelectionAfter, Verdict, Progress, Added, ResetAt, JudgedFrom, Undisturbed;
    var verdict := Verdict(w, filter, s.epan);
    NoneJudged(s.frames, verdict, k);
    if k < |s.frames| {
      ProgressUndisturbed(w, s);
      var s1 := Progress(w, s);
      UndisturbedSame(w, s, s1);
      if s1.queued == NoRescan && !s1.stopFlag {
        ResetSame(s1, k);
        var s2 := if redissect then ResetAt(s1, k) else s1;
        ResetJudged(s1, verdict, k);
        if w.readable(k + 1) {
          var s3 := Added(s2, k, verdict(k + 1), redissect);
          AddedJudged(s1, s2, verdict, k, redissect);
          ScanLoopJudges(w, s3, filter, redissect, SelectionAfter(sel, s3.frames, k), k + 1);
          JudgedOn(s.frames, s3.frames, ScanLoop(w, s3, filter, redissect, SelectionAfter(sel, s3.frames, k), k + 1).s.frames,
                   verdict, k, ScanLoop(w, s3, filter, redissect, SelectionAfter(sel, s3.frames, k), k + 1).k);
        }
      }
    }
  }

  lemma NoneJudged(fs: seq<Frame>, verdict: nat -> bool, k: nat)
    ensures JudgedFrom(fs, fs, verdict, k, k)
  {
  }

  lemma ResetJudged(s: Session, verdict: nat -> bool, k: nat)
    requires k < |s.frames|
    ensures JudgedFrom(s.frames, ResetAt(s, k).frames, verdict, k, k)
  {
  }

  lemma AddedJudged(s1: Session, s: Session, verdict: nat -> bool, k: nat, list: bool)
    requires k < |s.frames| && s.book.ref <= k && JudgedFrom(s1.frames, s.frames, verdict, k, k)
    ensures var r := Added(s, k, verdict(k + 1), list);
            && JudgedFrom(s1.frames, r.frames, verdict, k, k + 1)
            && r.epan == s.epan && r.book.ref <= k + 1
  {
  }

  lemma JudgedOn(fs: seq<Frame>, gs: seq<Frame>, hs: seq<Frame>, verdict: nat -> bool, k: nat, m: nat)
    requires JudgedFrom(fs, gs, verdict, k, k + 1) && JudgedFrom(gs, hs, verdict, k + 1, m) && k < m
    ensures JudgedFrom(fs, hs, verdict, k, m)
  {
  }

  lemma {:induction false} FirstRowOfAll(fs: seq<Frame>, lo: nat)
    requires lo <= |fs|
    ensures FirstDisplayed(fs, lo) == 0 ==> FirstRow(Nums(|fs|)[lo..], fs) == FirstDisplayed(fs, |fs|)
    decreases |fs| - lo
  {
    if lo < |fs| && FirstDisplayed(fs, lo) == 0 {
      assert Nums(|fs|)[lo..][1..] == Nums(|fs|)[lo + 1..];
      assert Nums(|fs|)[lo..][0] == lo + 1;
      if fs[lo].Displayed() {
        FirstDisplayedStays(fs, lo + 1, |fs|);
      } else {
        FirstRowOfAll(fs, lo + 1);
      }
    }
  }

  lemma {:induction false} FirstDisplayedStays(fs: seq<Frame>, j: nat, k: nat)
    requires j <= k <= |fs| && FirstDisplayed(fs, j) > 0
    ensures FirstDisplayed(fs, k) == FirstDisplayed(fs, j)
    decreases k
  {
    if j < k {
      FirstDisplayedStays(fs, j, k - 1);
    }
  }

  /** The selection after a pass over k frames: the first row if nothing was selected, else the frame nearby if it has a row. */
  function Selected(list: seq<nat>, fs: seq<Frame>, wanted: nat, k: nat): (n: nat)
    requires wanted <= |fs| && k <= |fs|
    ensures n <= |fs|
  {
    FirstRowBound(list, fs);
    if wanted == 0 then FirstRow(list, fs)
    else
      var n := Nearby(fs, wanted, k);
      if n == 0 || n in list then n else wanted
  }

  lemma ReselectedIs(s: Session, sel: Selection, k: nat)
    requires SelectionInv(s.frames, sel, s.currentFrame, k)
    ensures Reselected(s, sel).currentFrame == Selected(s.packetList, s.frames, s.currentFrame, k)
  {
    hide Nearby, FirstRow, Chosen, SelectionInv;
    ChosenIs(s.frames, sel, s.currentFrame, k);
  }

  lemma ChosenIs(fs: seq<Frame>, sel: Selection, wanted: nat, k: nat)
    requires SelectionInv(fs, sel, wanted, k)
    ensures k <= |fs| && wanted <= |fs|
    ensures Chosen(sel) ==
            if wanted == 0 then Some(0)
            else if Nearby(fs, wanted, k) == 0 then None else Some(Nearby(fs, wanted, k))
  {
    hide LatestPassed, FirstPassed;
  }

  /** Whatever ends a pass, it selects by the frames it has gone over. */
  lemma {:induction false} PassSelects(w: World, s: Session, redissect: bool)
    requires s.currentFrame <= |s.frames|
    ensures var p := PassOf(w, s, redissect);
            var r := Finished(p, redissect);
            && JudgedFrom(s.frames, r.frames, Verdict(w, s.dfilter, s.epan + (if redissect then 1 else 0)), 0, p.k)
            && r.currentFrame == Selected(r.packetList, r.frames, s.currentFrame, p.k)
  {
    hide ScanLoop, Verdict, LatestPassed, FirstPassed, SelectionInv, Reselected, Selected, Forgotten;
    var t, sel := Started(s, redissect), Selection(s.currentFrame, false, false, 0, 0);
    NothingSelectedYet(t.frames, s.currentFrame);
    ScanLoopSelects(w, t, s.dfilter, redissect, sel, s.currentFrame, 0);
    ScanLoopJudges(w, t, s.dfilter, redissect, sel, 0);
    var p := PassOf(w, s, redissect);
    var before := p.s.(redissecting := false, frames := if redissect then Forgotten(p.s.frames, p.k) else p.s.frames);
    SelectionSame(p.s.frames, before.frames, p.sel, s.currentFrame, p.k);
    ForgottenJudged(p.s.frames, p.k);
    ReselectedKeeps(before, p.sel);
    ReselectedIs(before, p.sel, p.k);
  }

  lemma ForgottenJudged(fs: seq<Frame>, k: nat)
    requires k <= |fs|
    ensures forall i | 0 <= i < |fs| ::
      Forgotten(fs, k)[i].passed == fs[i].passed && Forgotten(fs, k)[i].refTime == fs[i].refTime
  {
    hide Forgotten;
    forall i | 0 <= i < k
      ensures Forgotten(fs, k)[i] == fs[i]
    {
      assert Forgotten(fs, k)[..k][i] == fs[..k][i];
    }
  }

  /**
   An undisturbed rescan selects the frame that was selected if it passes, else the last one
   before it that does, else the first one after it, else none; and the first row if none was
   selected. A frame without a row leaves the selection alone, which a complete list rules out.
   */
  lemma {:induction false} RescanSelects(w: World, s: Session, redissect: bool)
    requires s.currentFrame <= |s.frames| && s.env == [] && Readable(w, |s.frames|)
    ensures var r := Rescan(w, s, redissect);
            && |r.frames| == |s.frames|
            && r.currentFrame == Selected(r.packetList, r.frames, s.currentFrame, |r.frames|)
            && (ListComplete(r) ==>
                  r.currentFrame == if s.currentFrame == 0 then FirstDisplayed(r.frames, |r.frames|)
                                    else Nearby(r.frames, s.currentFrame, |r.frames|))
  {
    hide PassOf, Rescan, Finished, Nums, Nearby, FirstDisplayed, Selected, Verdict;
    QuietRescan(w, s, redissect);
    PassSelects(w, s, redissect);
    PassGoesOn(w, s, redissect);
    var r := Rescan(w, s, redissect);
    if ListComplete(r) {
      SelectedWhenComplete(r.frames, s.currentFrame);
    }
  }

  lemma PassGoesOn(w: World, s: Session, redissect: bool)
    requires Readable(w, |s.frames|)
    ensures var p := PassOf(w, s, redissect);
            p.queued == NoRescan && !Finished(p, redissect).stopFlag ==> p.k == |s.frames|
  {
    hide ScanLoop, Chosen, FirstRow, Forgotten;
    ScanLoopReads(w, Started(s, redissect), s.dfilter, redissect, Selection(s.currentFrame, false, false, 0, 0), 0);
  }

  lemma SelectedWhenComplete(fs: seq<Frame>, wanted: nat)
    requires wanted <= |fs|
    ensures Selected(Nums(|fs|), fs, wanted, |fs|) ==
            if wanted == 0 then FirstDisplayed(fs, |fs|) else Nearby(fs, wanted, |fs|)
  {
    hide Nearby, FirstRow, FirstDisplayed;
    if wanted == 0 {
      FirstRowOfAll(fs, 0);
      NoneDisplayed(fs);
      assert Nums(|fs|)[0..] == Nums(|fs|);
    } else {
      forall n | 1 <= n <= |fs|
        ensures n in Nums(|fs|)
      {
        assert Nums(|fs|)[n - 1] == n;
      }
    }
  }

  lemma NothingSelectedYet(fs: seq<Frame>, wanted: nat)
    requires wanted <= |fs|
    ensures SelectionInv(fs, Selection(wanted, false, false, 0, 0), wanted, 0)
  {
  }

  lemma NoneDisplayed(fs: seq<Frame>)
    ensures FirstDisplayed(fs, 0) == 0
  {
  }

  /** After a file has been read without any request, its first displayed frame is selected. */
  lemma {:induction false} ReadSelects(w: World, s: Session, records: seq<Record>, p: ReadParams)
    requires Opened(w, s) && FitsFile(records) && s.queued == NoRescan && s.env == []
    ensures var r := Read(w, s, records, p).0;
            r.state == ReadDone && r.currentFrame == FirstDisplayed(r.frames, |r.frames|)
  {
    hide ReadLoop, Loaded, ScannedTo, FirstRow, Nums, FirstDisplayed;
    var s0 := s.(readLock := true, stopFlag := false);
    NothingScanned(w, s0);
    ReadLoopIs(w, s0, s.dfilter, records, p);
    ReadLoopRan(w, s0, s.dfilter, records, p);
    NothingAsked(w, s0);
    var (loop, end) := AfterLoop(w, s, records, p);
    assert Delivered(s0, loop) == [];
    QuietRead(w, s0, s.dfilter, records, p);
    LoadedIs(loop);
    SelectedOnLoad(w, loop);
  }

  lemma {:induction false} QuietRead(w: World, s: Session, filter: Option<string>, records: seq<Record>, p: ReadParams)
    requires s.book.ref <= |s.frames| && s.env == [] && s.state == ReadInProgress && !s.stopFlag
    ensures ReadLoop(w, s, filter, records, p).1 != Aborted
    decreases |records|
  {
    hide RecordAdded;
    if records != [] && !(p.sizeKnown && |s.frames| == p.maxRecords) {
      RecordSameScript(w, s, filter, records[0]);
      QuietRead(w, RecordAdded(w, s, filter, records[0]), filter, records[1..], p);
    }
  }

  lemma SelectedOnLoad(w: World, s: Session)
    requires ScannedTo(w, s, s.dfilter, |s.frames|) && ListComplete(s)
    ensures Loaded(s).currentFrame == FirstDisplayed(s.frames, |s.frames|)
  {
    hide Verdict, FrameMatches, PacketLens, FirstRow, Nums, LatestRef, LatestDisplayed, BytesSinceRef, DisplayedCount;
    FirstRowOfAll(s.frames, 0);
    NoneDisplayed(s.frames);
    assert Nums(|s.frames|)[0..] == Nums(|s.frames|);
  }

  /** The requests ask for one more pass, by the last batch, which comes within the first pass. */
  predicate AsksOnce(w: World, s: Session) {
    0 < |s.env| <= |s.frames| && BatchAsks(w, s, s.env[|s.env| - 1]) &&
    forall i | 0 <= i < |s.env| - 1 :: !BatchAsks(w, s, s.env[i]) && Stop !in s.env[i]
  }

  lemma {:induction false} ScanLoopAsked(w: World, s: Session, filter: Option<string>, redissect: bool, sel: Selection, k: nat)
    requires s.book.ref <= k && s.queued == NoRescan && !s.stopFlag && Readable(w, |s.frames|)
    requires AsksOnce(w, s) && k + |s.env| <= |s.frames|
    ensures var p := ScanLoop(w, s, filter, redissect, sel, k);
            p.queued != NoRescan && p.k == k + |s.env| - 1 && p.s.env == []
    decreases |s.frames| - k
  {
    hide Progress, BatchAsks, AskedIn, Verdict, Added, SelectionAfter, RedissectIn;
    ProgressUndisturbed(w, s);
    StopHeard(w, s);
    FirstBatch(w, s);
    OneBatch(w, s, s.env[0]);
    if |s.env| > 1 {
      var next, sel' := PassStep(w, s, filter, redissect, sel, k);
      SameAsking(w, s, next, []);
      AsksOnceNext(w, s, next);
      ScanLoopAsked(w, next, filter, redissect, sel', k + 1);
    }
  }

  lemma AsksOnceNext(w: World, s: Session, next: Session)
    requires AsksOnce(w, s) && |s.env| > 1 && next.env == s.env[1..] && |next.frames| == |s.frames|
    requires forall batch :: BatchAsks(w, next, batch) <==> BatchAsks(w, s, batch)
    ensures AsksOnce(w, next)
  {
    hide BatchAsks;
    forall i | 0 <= i < |next.env|
      ensures next.env[i] == s.env[i + 1]
    {
    }
  }

  /** The frames with the first k of them judged. */
  function Judged(fs: seq<Frame>, verdict: nat -> bool, k: nat): (r: seq<Frame>)
    ensures |r| == |fs|
  {
    seq(|fs|, i requires 0 <= i < |fs| => if i < k then fs[i].(passed := verdict(i + 1)) else fs[i])
  }

  lemma SelectedSame(list: seq<nat>, fs: seq<Frame>, gs: seq<Frame>, wanted: nat, k: nat)
    requires |fs| == |gs| && wanted <= |fs| && k <= |fs|
    requires forall i | 0 <= i < |fs| :: gs[i].passed == fs[i].passed && gs[i].refTime == fs[i].refTime
    ensures Selected(list, gs, wanted, k) == Selected(list, fs, wanted, k)
  {
    hide Nearby, FirstRow;
    SameRow(list, fs, gs);
    if wanted > 0 {
      SameNearby(fs, gs, wanted, k);
    }
  }

  lemma SameNearby(fs: seq<Frame>, gs: seq<Frame>, wanted: nat, k: nat)
    requires |fs| == |gs| && 1 <= wanted <= |fs| && k <= |fs|
    requires forall i | 0 <= i < |fs| :: gs[i].passed == fs[i].passed
    ensures Nearby(gs, wanted, k) == Nearby(fs, wanted, k)
  {
    hide LatestPassed, FirstPassed;
    if wanted <= k {
      SameFirst(fs, gs, wanted, k);
      SameLatest(fs, gs, wanted - 1);
    } else if k > 0 {
      SameLatest(fs, gs, k - 1);
    }
  }

  lemma {:induction false} SameRow(list: seq<nat>, fs: seq<Frame>, gs: seq<Frame>)
    requires |fs| == |gs|
    requires forall i | 0 <= i < |fs| :: gs[i].passed == fs[i].passed && gs[i].refTime == fs[i].refTime
    ensures FirstRow(list, gs) == FirstRow(list, fs)
  {
    if list != [] {
      SameRow(list[1..], fs, gs);
    }
  }

  predicate NonePasses(verdict: nat -> bool, k: int) {
    forall n: nat | 1 <= n <= k :: !verdict(n)
  }

  /** The frame selected when the first pass is interrupted, by the filter it started with. */
  function Interim(w: World, s: Session, redissect: bool): (n: nat)
    requires 0 < |s.env| <= |s.frames| && s.currentFrame <= |s.frames|
    ensures n <= |s.frames|
  {
    var k, verdict := |s.env| - 1, Verdict(w, s.dfilter, s.epan + (if redissect then 1 else 0));
    Selected(if redissect then Nums(k) else s.packetList, Judged(s.frames, verdict, k), s.currentFrame, k)
  }

  /**
   A rescan with one request in it selects twice: first by the frames it has seen when the
   request comes, judged by the old filter, and then from there. It forgets a selected frame
   if and only if none of the frames before the request passes the old filter, where the last of
   these does not count if the selected one is still to come.
   */
  lemma {:induction false} InterruptedSelects(w: World, s: Session, redissect: bool)
    requires Valid(w, s) && !s.readLock && s.asked < s.epan + (if redissect then 1 else 0) && s.state != Closed
    requires Readable(w, |s.frames|) && AsksOnce(w, s)
    ensures var r, k := Rescan(w, s, redissect), |s.env| - 1;
            && |r.frames| == |s.frames|
            && r.currentFrame == Selected(r.packetList, r.frames, Interim(w, s, redissect), |r.frames|)
            && (s.currentFrame != 0 ==>
                  (Interim(w, s, redissect) == 0 <==>
                   NonePasses(Verdict(w, s.dfilter, s.epan + (if redissect then 1 else 0)),
                              if s.currentFrame <= k then k else k - 1)))
            && (redissect || RedissectRequest in s.env[k] || ListComplete(s) ==> ListComplete(r))
  {
    hide PassOf, Finished, Selected, Verdict, Nums, BatchAsks, Judged;
    PassAsked(w, s, redissect);
    PassIs(w, s, redissect);
    PassSelects(w, s, redissect);
    var p := PassOf(w, s, redissect);
    var r1, again := Finished(p, redissect), redissect || p.queued == Redissect;
    assert Rescan(w, s, redissect) == Rescan(w, r1, again);
    InterimIs(w, s, redissect, r1);
    InterimZero(w, s, redissect);
    RescanSelects(w, r1, again);
    RescanIs(w, r1, again);
    QuietRescan(w, r1, again);
  }

  lemma PassAsked(w: World, s: Session, redissect: bool)
    requires Readable(w, |s.frames|) && AsksOnce(w, s)
    ensures var p := PassOf(w, s, redissect);
            && p.queued != NoRescan && p.k == |s.env| - 1 && Finished(p, redissect).env == []
            && (RedissectRequest in s.env[|s.env| - 1] ==> p.queued == Redissect)
  {
    hide ScanLoop, Finished, BatchAsks, Delivered;
    var t, sel := Started(s, redissect), Selection(s.currentFrame, false, false, 0, 0);
    SameAsking(w, s, t, []);
    ScanLoopAsked(w, t, s.dfilter, redissect, sel, 0);
    ScanLoopRan(w, t, s.dfilter, redissect, sel, 0);
    var p := PassOf(w, s, redissect);
    FinishedScript(p, redissect);
    DeliveredAll(t, p.s);
  }

  lemma DeliveredAll(s: Session, r: Session)
    requires r.env == []
    ensures Delivered(s, r) == s.env
  {
  }

  lemma InterimIs(w: World, s: Session, redissect: bool, r: Session)
    requires 0 < |s.env| <= |s.frames| && s.currentFrame <= |s.frames| && |r.frames| == |s.frames|
    requires r.packetList == if redissect then Nums(|s.env| - 1) else s.packetList
    requires JudgedFrom(s.frames, r.frames, Verdict(w, s.dfilter, s.epan + (if redissect then 1 else 0)), 0, |s.env| - 1)
    ensures Selected(r.packetList, r.frames, s.currentFrame, |s.env| - 1) == Interim(w, s, redissect)
  {
    hide Selected, Verdict, Nums;
    var verdict := Verdict(w, s.dfilter, s.epan + (if redissect then 1 else 0));
    SelectedSame(r.packetList, Judged(s.frames, verdict, |s.env| - 1), r.frames, s.currentFrame, |s.env| - 1);
  }

  lemma InterimZero(w: World, s: Session, redissect: bool)
    requires 0 < |s.env| <= |s.frames| && 0 <= s.currentFrame <= |s.frames|
    ensures s.currentFrame != 0 ==>
              (Interim(w, s, redissect) == 0 <==>
               NonePasses(Verdict(w, s.dfilter, s.epan + (if redissect then 1 else 0)),
                          if s.currentFrame <= |s.env| - 1 then |s.env| - 1 else |s.env| - 2))
  {
    hide Verdict, Nums, Nearby, Judged, NonePasses, FirstRow;
    var k, verdict := |s.env| - 1, Verdict(w, s.dfilter, s.epan + (if redissect then 1 else 0));
    NoneJudgedPasses(s.frames, verdict, k, if s.currentFrame <= k then k else k - 1);
  }

  lemma NoneJudgedPasses(fs: seq<Frame>, verdict: nat -> bool, k: nat, last: int)
    requires last <= k <= |fs|
    ensures NonePasses(verdict, last) <==> forall i | 0 <= i < last :: !Judged(fs, verdict, k)[i].passed
  {
    if forall i | 0 <= i < last :: !Judged(fs, verdict, k)[i].passed {
      forall n: nat | 1 <= n <= last
        ensures !verdict(n)
      {
        assert !Judged(fs, verdict, k)[n - 1].passed;
      }
    }
  }

  /** A request before the first frame always does it: the rescan ends on the first displayed frame. */
  lemma {:induction false} EarlyRequestUnselects(w: World, s: Session, redissect: bool)
    requires Valid(w, s) && !s.readLock && s.asked < s.epan + (if redissect then 1 else 0) && s.state != Closed
    requires Readable(w, |s.frames|) && s.frames != [] && s.currentFrame != 0
    requires |s.env| == 1 && BatchAsks(w, s, s.env[0])
    ensures var r := Rescan(w, s, redissect);
            && r.currentFrame == FirstRow(r.packetList, r.frames)
            && (redissect || RedissectRequest in s.env[0] || ListComplete(s) ==>
                  r.currentFrame == FirstDisplayed(r.frames, |r.frames|))
  {
    hide Rescan, Interim, Verdict, Nums, BatchAsks;
    InterruptedSelects(w, s, redissect);
    var r := Rescan(w, s, redissect);
    if ListComplete(r) {
      SelectedWhenComplete(r.frames, 0);
    }
  }

  /**
   "The nearest displayed frame, the next one if two are equally near": that is the frame
   chosen exactly if there is no passed frame on one of the sides, or the one before is
   strictly nearer.
   */
  lemma {:induction false} NearbyIsNotNearest(fs: seq<Frame>, wanted: nat)
    requires 1 <= wanted <= |fs| && !fs[wanted - 1].passed
    ensures var before, after := LatestPassed(fs, wanted - 1), FirstPassed(fs, wanted, |fs|);
            (forall n: nat | IsPassed(fs, n) :: NoNearer(n, Nearby(fs, wanted, |fs|), wanted))
            <==> before == 0 || after == 0 || wanted - before < after - wanted
  {
    var before, after := LatestPassed(fs, wanted - 1), FirstPassed(fs, wanted, |fs|);
    if before > 0 && after > 0 && wanted - before >= after - wanted {
      assert IsPassed(fs, after) && !NoNearer(after, before, wanted);
    }
  }

  predicate IsPassed(fs: seq<Frame>, n: nat) {
    1 <= n <= |fs| && fs[n - 1].passed
  }

  predicate NoNearer(n: nat, chosen: nat, wanted: nat) {
    || Distance(chosen, wanted) < Distance(n, wanted)
    || (Distance(chosen, wanted) == Distance(n, wanted) && n <= chosen)
  }

  function Distance(n: nat, wanted: nat): nat {
    if n < wanted then wanted - n else n - wanted
  }
}
