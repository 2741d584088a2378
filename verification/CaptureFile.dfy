/** The operations of file.c on a capture_file, each proved against its function in Sessions. */
module CaptureFiles {
  import opened Basics
  import opened Frames
  import opened Sessions
  import opened SessionRuns

  class CaptureFile {
    const w: World

    var state: FileState
    var readLock: bool
    var queued: RescanType
    var redissecting: bool
    var stopFlag: bool
    var dfilter: Option<string>
    var epan: nat
    var frames: seq<Frame>
    var packetList: seq<nat>
    var book: Book
    var currentFrame: nat

    /** The requests the user interface is going to deliver. */
    var env: seq<seq<Event>>

    ghost var asked: int

    ghost function Abs(): Session
      reads this
    {
      Session(state, readLock, queued, redissecting, stopFlag, dfilter, epan, frames, packetList, book,
              currentFrame, env, asked)
    }

    constructor (w: World, env: seq<seq<Event>>)
      ensures this.w == w && this.env == env && Idle(w, Abs()) && state == Closed && dfilter == None
    {
      this.w, this.env := w, env;
      state, readLock, queued, redissecting, stopFlag := Closed, false, NoRescan, false, false;
      dfilter, epan, frames, packetList, book, currentFrame := None, 0, [], [], EmptyBook(Time(0, 0)), 0;
      asked := -1;
    }

    /** A pass may start: the filter compiles and no redissection is owed, except one that the pass is to do. */
    ghost predicate MayScan(redissect: bool)
      reads this
    {
      Valid(w, Abs()) && asked < epan + (if redissect then 1 else 0)
    }

    /* ---------- requests ---------- */

    method SetFilter(text: Option<string>, force: bool) returns (changed: bool, ok: bool)
      modifies `dfilter
      ensures changed == !Ignored(w, old(Abs()), text, force)
      ensures Abs() == if changed then WithFilter(w, old(Abs()), text) else old(Abs())
      ensures !ok <==> text.Some? && w.compile(text.value) == Invalid && (force || !SameText(text, old(dfilter)))
    {
      if !force && SameText(text, dfilter) {
        return false, true;
      }
      var kept := text;
      if text.Some? {
        var compiled := w.compile(text.value);
        if compiled == Invalid {
          return false, false;
        }
        if compiled == Empty {
          kept := None;
        }
      }
      dfilter := kept;
      return true, true;
    }

    /** cf_filter_packets */
    method FilterPackets(text: Option<string>, force: bool) returns (ok: bool)
      requires !readLock && queued == NoRescan && state != Closed ==> MayScan(false)
      modifies this
      ensures Abs() == Filter(w, old(Abs()), text, force)
      decreases if readLock then 0 else 2, if readLock then 0 else |env|, 1
    {
      hide Rescan;
      var changed;
      changed, ok := SetFilter(text, force);
      if changed && queued == NoRescan {
        if readLock {
          queued := Scan;
        } else if state != Closed {
          RescanPackets(false);
        }
      }
    }

    /** cf_redissect_packets */
    method RedissectPackets()
      requires !readLock && queued == NoRescan && state != Closed ==> MayScan(false)
      modifies this
      ensures Abs() == Sessions.RedissectPackets(w, old(Abs()))
      decreases if readLock then 0 else 2, if readLock then 0 else |env|, 1
    {
      hide Rescan;
      if readLock || queued == Scan {
        queued := Redissect;
      }
      if queued != NoRescan {
        asked := epan;
        return;
      }
      if state != Closed {
        asked := epan;
        RescanPackets(true);
      }
    }

    /** One request of the user, while a pass holds the lock. */
    method DeliverRequest(e: Event)
      requires readLock
      modifies this
      ensures Abs() == Deliver(w, old(Abs()), e) && readLock
      decreases 0, |env|, 2
    {
      hide Filter, Ignored;
      LockedRequests(w, Abs());
      match e {
        case FilterRequest(text, force) =>
          var ok := FilterPackets(text, force);
        case RedissectRequest =>
          RedissectPackets();
        case Stop =>
          stopFlag := true;
        case Quit =>
          if state == ReadInProgress {
            state := ReadAborted;
          }
      }
    }

    /** update_progress_dlg, in which the user interface runs */
    method UpdateProgress()
      requires readLock
      modifies this
      ensures Abs() == Progress(w, old(Abs())) && Undisturbed(w, old(Abs()), Abs())
      decreases 1, 0
    {
      hide Deliver, Undisturbed;
      ProgressUndisturbed(w, Abs());
      if env == [] {
        return;
      }
      var batch := env[0];
      env := env[1..];
      ghost var start := Abs();
      for i := 0 to |batch|
        invariant readLock && Abs() == DeliverAll(w, start, batch[..i])
      {
        assert batch[..i + 1][..i] == batch[..i] && batch[..i + 1][i] == batch[i];
        DeliverRequest(batch[i]);
      }
      assert batch[..|batch|] == batch;
    }

    /* ---------- passes ---------- */

    /** add_packet_to_packet_list for frame k + 1 */
    method AddPacketToPacketList(k: nat, dfcode: Option<string>, list: bool)
      requires k < |frames| && book.ref <= k
      modifies `frames, `book, `packetList
      ensures Abs() == Added(old(Abs()), k, Verdict(w, dfcode, epan)(k + 1), list)
    {
      hide SetBeforeDissect, SetAfterDissect, AddedFrame, BookAfter, Verdict;
      AddedInSteps(frames, k, Verdict(w, dfcode, epan)(k + 1), book);
      var (f, b) := SetBeforeDissect(frames, k, book);
      // dissection and the filter
      f := f.(visited := true, passed := Verdict(w, dfcode, epan)(k + 1));
      if f.passed || f.refTime {
        b := b.(displayedCount := b.displayedCount + 1);
      }
      if list {
        packetList := packetList + [k + 1];
      }
      if f.passed || f.refTime {
        var after := SetAfterDissect(f, b);
        f, b := after.0, after.1.(prevDis := k + 1);
        if b.firstDisplayed == 0 {
          b := b.(firstDisplayed := k + 1);
        }
        b := b.(lastDisplayed := k + 1);
      }
      frames := frames[k := f];
      book := b;
    }

    /** The loop of rescan_packets, up to the frame where it ends. */
    method ScanFrames(dfcode: Option<string>, redissect: bool) returns (queuedType: RescanType, k: nat, sel: Selection)
      requires readLock && queued == NoRescan && book.ref == 0
      modifies this
      ensures k <= |frames| && readLock
      ensures Pass(Abs(), queuedType, k, sel)
           == ScanLoop(w, old(Abs()), dfcode, redissect, Selection(old(currentFrame), false, false, 0, 0), 0)
      decreases 1, 1
    {
      hide ScanLoop, Verdict, Progress, Added, SelectionAfter, Undisturbed, ResetAt, SamePass, Valid;
      ghost var s := Abs();
      sel := Selection(currentFrame, false, false, 0, 0);
      ghost var pass := ScanLoop(w, s, dfcode, redissect, sel, 0);
      queuedType := NoRescan;
      k := 0;
      while k < |frames|
        invariant k <= |frames| && book.ref <= k && readLock && queued == NoRescan && queuedType == NoRescan
        invariant ScanLoop(w, Abs(), dfcode, redissect, sel, k) == pass
      {
        LoopStep(w, Abs(), dfcode, redissect, sel, k);
        UpdateProgress();
        queuedType := queued;
        if queuedType != NoRescan {
          return;
        }
        if stopFlag {
          return;
        }
        if redissect {
          ResetSame(Abs(), k);
          ResetFrame(k);
        }
        if !w.readable(k + 1) {
          return;
        }
        ghost var before := Abs();
        AddPacketToPacketList(k, dfcode, redissect);
        AddedKeeps(before, k, Verdict(w, dfcode, epan)(k + 1), redissect);
        sel := SelectionAfter(sel, frames, k);
        k := k + 1;
      }
      LoopEnd(w, Abs(), dfcode, redissect, sel, k);
    }

    /** frame_data_reset */
    method ResetFrame(k: nat)
      requires k < |frames|
      modifies `frames
      ensures Abs() == ResetAt(old(Abs()), k)
    {
      frames := frames[k := frames[k].(visited := false)];
    }

    /** rescan_packets */
    method RescanPackets(redissect: bool)
      requires !readLock && MayScan(redissect)
      modifies this
      ensures Abs() == Rescan(w, old(Abs()), redissect)
      decreases 2, |env|, 0
    {
      hide ScanLoop, Verdict, UpToDate, Finished, Nums, SameCapture, ScannedTo;
      ghost var s := Abs();
      PassIs(w, s, redissect);
      PassEnv(w, s, redissect);
      var dfcode := dfilter;
      assert dfcode.Some? ==> w.compile(dfcode.value) == Code;
      StartRescan(redissect);
      var queuedType, k, sel := ScanFrames(dfcode, redissect);
      assert Pass(Abs(), queuedType, k, sel) == PassOf(w, s, redissect);
      EndRescan(redissect, queuedType, k, sel);
      if queuedType != NoRescan {
        RescanPackets(redissect || queuedType == Redissect);
      }
    }

    method StartRescan(redissect: bool)
      requires !readLock
      modifies this
      ensures Abs() == Started(old(Abs()), redissect)
    {
      queued := NoRescan;
      readLock := true;
      if redissect {
        redissecting := true;
        epan := epan + 1;
        packetList := [];
      }
      book := EmptyBook(book.elapsed);
      stopFlag := false;
    }

    method EndRescan(redissect: bool, ghost queuedType: RescanType, k: nat, sel: Selection)
      requires readLock && k <= |frames|
      modifies this
      ensures Abs() == Finished(Pass(old(Abs()), queuedType, k, sel), redissect)
    {
      hide Forgotten, Reselected;
      redissecting := false;
      if redissect {
        frames := Forgotten(frames, k);
      }
      ghost var before := Abs();
      Reselect(sel);
      ReselectedKeeps(before, sel);
      readLock := false;
    }

    /** The end of rescan_packets: choosing the frame to be selected. */
    method Reselect(sel: Selection)
      modifies `currentFrame
      ensures Abs() == Reselected(old(Abs()), sel)
    {
      hide Chosen, FirstRow;
      var chosen := Chosen(sel);
      if chosen == None {
        currentFrame := 0;
      } else if chosen.value == 0 {
        var row := FirstRow(packetList, frames);
        if row != 0 {
          currentFrame := row;
        }
      } else if 1 <= chosen.value <= |frames| && chosen.value in packetList && frames[chosen.value - 1].Displayed() {
        currentFrame := chosen.value;
      }
    }

    /* ---------- cf_read ---------- */

    /** read_record */
    method ReadRecord(rec: Record, dfcode: Option<string>)
      requires book.ref <= |frames|
      modifies `frames, `book, `packetList
      ensures Abs() == RecordAdded(w, old(Abs()), dfcode, rec)
    {
      hide Verdict, Added;
      if rec.wanted {
        var n := |frames|;
        frames := frames
          + [Frame(rec.pktLen, rec.absTs, false, false, false, (book.cumBytes + rec.pktLen) % U32, 0, 0)];
        if !redissecting && queued == NoRescan {
          AddPacketToPacketList(n, dfcode, true);
        }
      }
    }

    method ReadFrames(records: seq<Record>, dfcode: Option<string>, p: ReadParams) returns (end: ReadEnd)
      requires readLock && ReadInv(w, Abs(), dfcode) && FitsFile(records) && !stopFlag
      modifies this
      ensures (Abs(), end) == ReadLoop(w, old(Abs()), dfcode, records, p)
      decreases 1, 1
    {
      hide ReadLoop, Verdict, Progress, RecordAdded, ReadInv, Undisturbed;
      ReadInvRef(w, Abs(), dfcode);
      ghost var result := ReadLoop(w, Abs(), dfcode, records, p);
      var i := 0;
      ghost var session := epan;
      while i < |records|
        invariant i <= |records| && readLock && book.ref <= |frames| && !stopFlag && epan == session
        invariant ReadInv(w, Abs(), dfcode)
        invariant ReadLoop(w, Abs(), dfcode, records[i..], p) == result
      {
        ReadStep(w, Abs(), dfcode, records[i..], p);
        if p.sizeKnown {
          if |frames| == p.maxRecords {
            return TooMany;
          }
          ghost var before := Abs();
          UpdateProgress();
          ReadInvUndisturbed(w, before, Abs(), dfcode);
          UndisturbedSame(w, before, Abs());
          // g_assert(edt.session == cf->epan)
          assert epan == session;
        }
        if state == ReadAborted {
          return Aborted;
        }
        if stopFlag {
          return Stopped;
        }
        ghost var before := Abs();
        ReadInvRef(w, before, dfcode);
        ReadInvRecord(w, before, dfcode, records[i]);
        RecordKeeps(w, before, dfcode, records[i]);
        ReadRecord(records[i], dfcode);
        ReadInvRef(w, Abs(), dfcode);
        assert records[i..][1..] == records[i + 1..];
        i := i + 1;
      }
      ReadStep(w, Abs(), dfcode, records[i..], p);
      return EndOfFile;
    }

    /** cf_read */
    method Read(records: seq<Record>, p: ReadParams) returns (status: ReadStatus)
      requires readLock || Opened(w, Abs())
      requires book.ref <= |frames| && FitsFile(records)
      modifies this
      ensures (Abs(), status) == Sessions.Read(w, old(Abs()), records, p)
    {
      hide ReadLoop, Rescan, Verdict, Loaded, ScannedTo, Nums, PacketLens, ClosedFile, Undisturbed, FitsFile;
      if readLock {
        return ReadError;
      }
      ghost var s := Abs();
      var dfcode := dfilter;
      assert dfcode.Some? ==> w.compile(dfcode.value) == Code;
      readLock := true;
      stopFlag := false;
      NothingScanned(w, Abs());
      ReadLoopIs(w, Abs(), dfcode, records, p);
      var end := ReadFrames(records, dfcode, p);
      ghost var loop := Abs();
      LoadedKeeps(w, loop);
      FinishReading();
      if end == Aborted {
        Close();
        queued := NoRescan;
        return ReadGivenUp;
      }
      if queued != NoRescan {
        RescanPackets(queued == Redissect);
      }
      status := if stopFlag || p.failed || end == TooMany then ReadError else ReadOk;
    }

    /** What cf_read does between the end of its loop and the release of the lock. */
    method FinishReading()
      requires readLock
      modifies `state, `readLock, `currentFrame
      ensures Abs() == Loaded(old(Abs()))
    {
      hide FirstRow;
      state := ReadDone;
      currentFrame := if book.firstDisplayed <= |frames| then book.firstDisplayed else 0;
      if book.firstDisplayed != 0 {
        var row := FirstRow(packetList, frames);
        if row != 0 {
          currentFrame := row;
        }
      }
      assert readLock;
      readLock := false;
    }

    /** cf_close */
    method Close()
      requires !readLock && state != ReadInProgress
      modifies this
      ensures Abs() == ClosedFile(old(Abs()))
    {
      stopFlag := false;
      if state == Closed {
        return;
      }
      frames, packetList, currentFrame := [], [], 0;
      book := book.(ref := 0, firstDisplayed := 0, lastDisplayed := 0, elapsed := Time(0, 0));
      state := Closed;
    }

    /* ---------- process_specified_records, ref_time_packets ---------- */

    method ProcessSpecifiedRecords(p: PspParams) returns (r: PspReturn)
      modifies this
      ensures (Abs(), r) == Process(w, old(Abs()), p)
    {
      hide ProcessLoop, Progress, Undisturbed;
      if readLock {
        return PspFailed;
      }
      readLock := true;
      stopFlag := false;
      r := PspFinished;
      ghost var result := ProcessLoop(w, Abs(), p, 0);
      var k := 0;
      while k < |frames|
        invariant k <= |frames| && readLock && r == PspFinished
        invariant ProcessLoop(w, Abs(), p, k) == result
      {
        ProcessStep(w, Abs(), p, k);
        if p.showProgress {
          ghost var before := Abs();
          UpdateProgress();
          UndisturbedSame(w, before, Abs());
        }
        if stopFlag {
          r := PspStopped;
          break;
        }
        match p.range(k + 1) {
          case ProcessNext =>
          case ProcessingFinished =>
            break;
          case ProcessThis =>
            if !w.readable(k + 1) || !p.callbackSucceeds(k + 1) {
              r := PspFailed;
              break;
            }
        }
        k := k + 1;
      }
      if k == |frames| {
        ProcessStep(w, Abs(), p, k);
      }
      assert readLock;
      readLock := false;
    }

    /** ref_time_packets */
    method RefTimePackets()
      modifies `frames, `book
      ensures var (fs, b) := RefreshUpTo(old(frames), old(book.elapsed), |old(frames)|);
              && frames == fs
              && book == old(book).(ref := b.ref, prevDis := b.prevDis, cumBytes := b.cumBytes, elapsed := b.elapsed)
    {
      hide RefreshUpTo;
      ghost var fs := frames;
      var b := RefBook(0, 0, 0, book.elapsed);
      RefreshNone(fs, book.elapsed);
      for k := 0 to |frames|
        invariant |frames| == |fs| && b.ref <= k
        invariant (frames, b) == RefreshUpTo(fs, old(book.elapsed), k)
        invariant book == old(book)
      {
        RefreshNext(fs, old(book.elapsed), k);
        var f := frames[k];
        f := f.(cumBytes := (b.cumBytes + f.pktLen) % U32);
        if b.ref == 0 {
          b := b.(ref := k + 1);
        }
        if f.refTime {
          b := b.(ref := k + 1);
        }
        if b.prevDis == 0 {
          b := b.(prevDis := k + 1);
        }
        f := f.(frameRefNum := if b.ref != k + 1 then b.ref else 0);
        b := b.(elapsed := NextElapsed(b.elapsed, Delta(f.absTs, frames[b.ref - 1].absTs)));
        if f.passed {
          f := f.(prevDisNum := b.prevDis);
          b := b.(prevDis := k + 1);
        }
        if f.passed || f.refTime {
          if f.refTime {
            b := b.(cumBytes := f.pktLen);
            f := f.(cumBytes := b.cumBytes);
          } else {
            b := b.(cumBytes := (b.cumBytes + f.pktLen) % U32);
          }
        }
        frames := frames[k := f];
      }
      book := book.(ref := b.ref, prevDis := b.prevDis, cumBytes := b.cumBytes, elapsed := b.elapsed);
    }
  }

  /** While the lock is held, cf_filter_packets and cf_redissect_packets do what Deliver says. */
  lemma LockedRequests(w: World, s: Session)
    ensures s.readLock ==> forall text, force :: Filter(w, s, text, force) == Deliver(w, s, FilterRequest(text, force))
    ensures s.readLock ==> Sessions.RedissectPackets(w, s) == Deliver(w, s, RedissectRequest)
    ensures forall e :: Deliver(w, s, e).readLock == s.readLock
  {
  }

  lemma LoopStep(w: World, s: Session, dfcode: Option<string>, redissect: bool, sel: Selection, k: nat)
    requires k < |s.frames| && s.book.ref <= k
    ensures var s1 := Progress(w, s);
            && s1.frames == s.frames && s1.book == s.book && s1.readLock == s.readLock
            && ScanLoop(w, s, dfcode, redissect, sel, k) ==
               if s1.queued != NoRescan then Pass(s1, s1.queued, k, sel)
               else if s1.stopFlag then Pass(s1, NoRescan, k, sel)
               else
                 var s2 := if redissect then ResetAt(s1, k) else s1;
                 if !w.readable(k + 1) then Pass(s2, NoRescan, k, sel)
                 else
                   var s3 := Added(s2, k, Verdict(w, dfcode, s2.epan)(k + 1), redissect);
                   ScanLoop(w, s3, dfcode, redissect, SelectionAfter(sel, s3.frames, k), k + 1)
  {
    hide Progress, Added, SelectionAfter, Verdict;
    ProgressUndisturbed(w, s);
  }

  lemma AddedKeeps(s: Session, k: nat, passed: bool, list: bool)
    requires k < |s.frames| && s.book.ref <= k
    ensures var r := Added(s, k, passed, list);
            && |r.frames| == |s.frames| && r.book.ref <= k + 1 && r.readLock == s.readLock && r.queued == s.queued
            && r.epan == s.epan
  {
  }

  lemma LoopEnd(w: World, s: Session, dfcode: Option<string>, redissect: bool, sel: Selection, k: nat)
    requires k == |s.frames| ==> s.book.ref <= k
    ensures k == |s.frames| ==> ScanLoop(w, s, dfcode, redissect, sel, k) == Pass(s, NoRescan, k, sel)
  {
  }

  lemma ProcessStep(w: World, s: Session, p: PspParams, k: nat)
    requires k <= |s.frames|
    ensures Progress(w, s).frames == s.frames
    ensures ProcessLoop(w, s, p, k) ==
            if k == |s.frames| then (s, PspFinished)
            else
              var s1 := if p.showProgress then Progress(w, s) else s;
              if s1.stopFlag then (s1, PspStopped)
              else match p.range(k + 1)
                case ProcessNext => ProcessLoop(w, s1, p, k + 1)
                case ProcessingFinished => (s1, PspFinished)
                case ProcessThis =>
                  if !w.readable(k + 1) || !p.callbackSucceeds(k + 1) then (s1, PspFailed) else ProcessLoop(w, s1, p, k + 1)
  {
    hide Progress;
    ProgressUndisturbed(w, s);
  }

  lemma RefreshNone(fs: seq<Frame>, elapsed: Time)
    ensures RefreshUpTo(fs, elapsed, 0) == (fs, RefBook(0, 0, 0, elapsed))
  {
  }

  lemma RefreshNext(fs: seq<Frame>, elapsed: Time, k: nat)
    requires k < |fs|
    ensures var r := RefreshUpTo(fs, elapsed, k);
            RefreshUpTo(fs, elapsed, k + 1) == (r.0[k := RefreshedFrame(r.0, k, r.1)], RefBookAfter(r.0, k, r.1))
  {
    hide RefreshedFrame, RefBookAfter;
  }
}
