/** What holds of every run of the session machine, and exactly where its promises end. */
module SessionRuns {
  import opened Basics
  import opened Frames
  import opened Sessions

  function Nums(n: nat): (r: seq<nat>)
    ensures |r| == n && forall i | 0 <= i < n :: r[i] == i + 1
  {
    seq(n, i requires 0 <= i => i + 1)
  }

  /** The first n frames can be read back from the file. */
  predicate Readable(w: World, n: nat) {
    forall k | 1 <= k <= n :: w.readable(k)
  }

  ghost predicate AllReadable(w: World) {
    forall n: nat :: w.readable(n)
  }

  /** The first k frames and the book are as a pass with this filter in this session leaves them. */
  predicate ScannedTo(w: World, s: Session, filter: Option<string>, k: nat) {
    && k <= |s.frames| && PacketLens(s.frames) && BookMatches(s.frames, k, s.book)
    && forall i | 0 <= i < k ::
         && s.frames[i].passed == Verdict(w, filter, s.epan)(i + 1)
         && s.frames[i].visited && FrameMatches(s.frames, i)
  }

  /** Every frame has been dissected in the current session and judged by the current filter. */
  predicate UpToDate(w: World, s: Session) {
    ScannedTo(w, s, s.dfilter, |s.frames|)
  }

  /** No pass is running, no request is waiting, no redissection is owed. */
  predicate Idle(w: World, s: Session) {
    && Valid(w, s) && !s.readLock && !s.redissecting && s.queued == NoRescan
    && s.asked <= s.epan && (s.state == Closed ==> s.frames == []) && (s.state != Closed ==> s.asked < s.epan)
  }

  predicate ListComplete(s: Session) {
    s.packetList == Nums(|s.frames|)
  }

  /* ---------- one pass ---------- */

  /** What holds at the head of the loop, before frame k + 1; `list` is the packet list from before the pass. */
  predicate PassInv(w: World, s: Session, filter: Option<string>, redissect: bool, list: seq<nat>, k: nat) {
    && Valid(w, s) && ScannedTo(w, s, filter, k)
    && s.packetList == (if redissect then Nums(k) else list)
    && (s.queued == NoRescan ==> s.dfilter == filter && s.asked < s.epan)
    && (s.asked < s.epan || (s.asked == s.epan && s.queued == Redissect))
  }

  lemma PassInvUndisturbed(w: World, s: Session, r: Session, filter: Option<string>, redissect: bool, list: seq<nat>, k: nat)
    requires PassInv(w, s, filter, redissect, list, k) && Undisturbed(w, s, r)
    ensures PassInv(w, r, filter, redissect, list, k)
  {
    hide Verdict, FrameMatches, BookMatches, PacketLens, Nums;
  }

  lemma ScannedReset(w: World, s: Session, filter: Option<string>, k: nat)
    requires ScannedTo(w, s, filter, k) && k < |s.frames|
    ensures ScannedTo(w, ResetAt(s, k), filter, k)
  {
    hide Verdict, FrameMatches, BookMatches, PacketLens;
    ResetMatches(s.frames, ResetAt(s, k).frames, k, s.book);
  }

  lemma PassInvReset(w: World, s: Session, filter: Option<string>, redissect: bool, list: seq<nat>, k: nat)
    requires PassInv(w, s, filter, redissect, list, k) && k < |s.frames|
    ensures PassInv(w, ResetAt(s, k), filter, redissect, list, k)
  {
    hide Nums, ScannedTo;
    ScannedReset(w, s, filter, k);
    ScannedLens(w, ResetAt(s, k), filter, k);
  }

  lemma ScannedLens(w: World, s: Session, filter: Option<string>, k: nat)
    requires ScannedTo(w, s, filter, k)
    ensures k <= |s.frames| && PacketLens(s.frames)
  {
  }

  lemma ResetMatches(fs: seq<Frame>, gs: seq<Frame>, k: nat, b: Book)
    requires k < |fs| == |gs| && gs[..k] == fs[..k] && PacketLens(fs) && BookMatches(fs, k, b)
    requires forall i | 0 <= i < |fs| :: gs[i].(visited := fs[i].visited) == fs[i]
    ensures PacketLens(gs) && BookMatches(gs, k, b)
    ensures forall i | 0 <= i < k :: FrameMatches(fs, i) ==> FrameMatches(gs, i)
  {
    SameSpecs(fs, gs, k);
    forall i | 0 <= i < k && FrameMatches(fs, i) ensures FrameMatches(gs, i) {
      EarlierStillMatch(fs, gs, i, k);
    }
  }

  lemma PassInvAdded(w: World, s: Session, filter: Option<string>, redissect: bool, list: seq<nat>, k: nat)
    requires PassInv(w, s, filter, redissect, list, k) && k < |s.frames|
    ensures s.book.ref <= k
    ensures PassInv(w, Added(s, k, Verdict(w, filter, s.epan)(k + 1), redissect), filter, redissect, list, k + 1)
  {
    hide Verdict, ScannedTo, PacketLens, AddedFrame, BookAfter;
    var passed := Verdict(w, filter, s.epan)(k + 1);
    AddedScanned(w, s, filter, k, redissect);
    ScannedLens(w, Added(s, k, passed, redissect), filter, k + 1);
    assert Nums(k + 1) == Nums(k) + [k + 1];
  }

  lemma AddedScanned(w: World, s: Session, filter: Option<string>, k: nat, list: bool)
    requires ScannedTo(w, s, filter, k) && k < |s.frames|
    ensures s.book.ref <= k
    ensures var r := Added(s, k, Verdict(w, filter, s.epan)(k + 1), list);
            ScannedTo(w, r, filter, k + 1) && SameCapture(s.frames, r.frames)
  {
    hide Verdict, BookMatches, FrameMatches, AddedFrame, BookAfter;
    BookRef(s.frames, k, s.book);
    var passed := Verdict(w, filter, s.epan)(k + 1);
    var r := Added(s, k, passed, list);
    AddingMatches(s.frames, k, passed, s.book);
    AddedFrameKeeps(s.frames, k, passed, s.book);
    forall i | 0 <= i < k ensures FrameMatches(r.frames, i) {
      assert r.frames[..k] == s.frames[..k];
      EarlierStillMatch(s.frames, r.frames, i, k);
    }
  }

  lemma BookRef(fs: seq<Frame>, k: nat, b: Book)
    requires k <= |fs| && BookMatches(fs, k, b)
    ensures b.ref <= k
  {
  }

  /** What a pass does not touch. */
  predicate SamePass(s: Session, r: Session) {
    && r.epan == s.epan && r.readLock == s.readLock && r.redissecting == s.redissecting
    && r.currentFrame == s.currentFrame && SameCapture(s.frames, r.frames)
    && (r.state == s.state || (s.state == ReadInProgress && r.state == ReadAborted))
  }

  lemma SamePassTrans(s: Session, r: Session, t: Session)
    requires SamePass(s, r) && SamePass(r, t)
    ensures SamePass(s, t)
  {
  }

  lemma UndisturbedSame(w: World, s: Session, r: Session)
    requires Undisturbed(w, s, r)
    ensures SamePass(s, r) && r.frames == s.frames && r.book == s.book
  {
  }

  lemma {:induction false} ScanLoopIs(w: World, s: Session, filter: Option<string>, redissect: bool, sel: Selection, list: seq<nat>, k: nat)
    requires k <= |s.frames| && PassInv(w, s, filter, redissect, list, k) && s.queued == NoRescan && s.book.ref <= k
    ensures var p := ScanLoop(w, s, filter, redissect, sel, k);
            && p.queued == p.s.queued
            && PassInv(w, p.s, filter, redissect, list, p.k)
            && SamePass(s, p.s)
            && (p.queued == NoRescan && !p.s.stopFlag && Readable(w, |s.frames|) ==> p.k == |p.s.frames|)
    decreases |s.frames| - k
  {
    hide PassInv, Verdict, Added, SelectionAfter, Progress, Undisturbed, SamePass, ResetAt;
    if k == |s.frames| {
      SamePassRefl(s);
    } else {
      ProgressUndisturbed(w, s);
      var s1 := Progress(w, s);
      PassInvUndisturbed(w, s, s1, filter, redissect, list, k);
      UndisturbedSame(w, s, s1);
      if s1.queued == NoRescan && !s1.stopFlag {
        var s2 := if redissect then ResetAt(s1, k) else s1;
        PassInvReset(w, s1, filter, redissect, list, k);
        ResetSame(s1, k);
        SamePassTrans(s, s1, s2);
        if w.readable(k + 1) {
          var s3 := Added(s2, k, Verdict(w, filter, s2.epan)(k + 1), redissect);
          PassInvAdded(w, s2, filter, redissect, list, k);
          AddedCapture(s2, k, Verdict(w, filter, s2.epan)(k + 1), redissect);
          SamePassTrans(s, s2, s3);
          ScanLoopIs(w, s3, filter, redissect, SelectionAfter(sel, s3.frames, k), list, k + 1);
          SamePassTrans(s, s3, ScanLoop(w, s3, filter, redissect, SelectionAfter(sel, s3.frames, k), k + 1).s);
        }
      }
    }
  }

  lemma SamePassRefl(s: Session)
    ensures SamePass(s, s)
  {
  }

  lemma ResetSame(s: Session, k: nat)
    requires k < |s.frames|
    ensures var r := ResetAt(s, k);
            SamePass(s, s) && SamePass(s, r) && |r.frames| == |s.frames| && r.book == s.book && r.queued == s.queued && r.epan == s.epan && r.stopFlag == s.stopFlag
  {
  }

  lemma AddedCapture(s: Session, k: nat, passed: bool, list: bool)
    requires k < |s.frames| && s.book.ref <= k
    ensures var r := Added(s, k, passed, list);
            SamePass(s, r) && |r.frames| == |s.frames| && r.book.ref <= k + 1 && r.queued == s.queued
  {
  }

  /* ---------- rescan_packets ---------- */

  lemma StartedInv(w: World, s: Session, redissect: bool)
    requires Valid(w, s) && s.asked < s.epan + (if redissect then 1 else 0)
    ensures PassInv(w, Started(s, redissect), s.dfilter, redissect, s.packetList, 0)
    ensures Started(s, redissect).queued == NoRescan && Started(s, redissect).book.ref == 0
  {
    EmptyMatches(s.frames, s.book.elapsed);
  }

  lemma FinishedKeeps(p: Pass, redissect: bool)
    requires p.k <= |p.s.frames|
    ensures var r := Finished(p, redissect);
            && r == p.s.(redissecting := false, readLock := false, frames := r.frames, currentFrame := r.currentFrame)
            && r.frames == (if redissect then Forgotten(p.s.frames, p.k) else p.s.frames)
            && SameCapture(p.s.frames, r.frames)
            && (p.k == |p.s.frames| ==> r.frames == p.s.frames)
            && (p.s.currentFrame <= |p.s.frames| ==> r.currentFrame <= |p.s.frames|)
  {
    hide Chosen, Forgotten, FirstRow, Reselected, SameCapture;
    var s := p.s.(redissecting := false, frames := if redissect then Forgotten(p.s.frames, p.k) else p.s.frames);
    ForgottenKeeps(p.s.frames, p.k);
    ReselectedKeeps(s, p.sel);
    ReselectedBound(s, p.sel);
  }

  lemma ForgottenKeeps(fs: seq<Frame>, k: nat)
    requires k <= |fs|
    ensures SameCapture(fs, fs) && SameCapture(fs, Forgotten(fs, k))
    ensures k == |fs| ==> Forgotten(fs, k) == fs
  {
    forall i | 0 <= i < k
      ensures Forgotten(fs, k)[i] == fs[i]
    {
      assert Forgotten(fs, k)[..k][i] == fs[..k][i];
    }
  }

  lemma ReselectedBound(s: Session, sel: Selection)
    ensures s.currentFrame <= |s.frames| ==> Reselected(s, sel).currentFrame <= |s.frames|
  {
    hide Chosen, FirstRow;
    FirstRowBound(s.packetList, s.frames);
  }

  lemma {:induction false} FirstRowBound(list: seq<nat>, fs: seq<Frame>)
    ensures FirstRow(list, fs) <= |fs|
  {
    if list != [] {
      FirstRowBound(list[1..], fs);
    }
  }

  /** One pass, finished. */
  lemma PassIs(w: World, s: Session, redissect: bool)
    requires Valid(w, s) && s.asked < s.epan + (if redissect then 1 else 0)
    ensures var p := PassOf(w, s, redissect);
            var r := Finished(p, redissect);
            && r.queued == p.queued
            && Valid(w, r) && !r.readLock && !r.redissecting && SameCapture(s.frames, r.frames)
            && r.epan == s.epan + (if redissect then 1 else 0)
            && (r.state == s.state || (s.state == ReadInProgress && r.state == ReadAborted))
            && (r.queued == NoRescan ==> r.asked < r.epan)
            && (r.asked < r.epan || (r.asked == r.epan && r.queued == Redissect))
            && r.packetList == (if redissect then Nums(p.k) else s.packetList)
            && (r.queued == NoRescan && !r.stopFlag && Readable(w, |s.frames|) ==> p.k == |r.frames| && UpToDate(w, r))
  {
    hide ScanLoop, Verdict, Finished, Nums, FrameMatches, BookMatches;
    var sel := Selection(s.currentFrame, false, false, 0, 0);
    var t := Started(s, redissect);
    StartedInv(w, s, redissect);
    ScanLoopIs(w, t, s.dfilter, redissect, sel, s.packetList, 0);
    var p := PassOf(w, s, redissect);
    assert p == ScanLoop(w, t, s.dfilter, redissect, sel, 0);
    FinishedKeeps(p, redissect);
  }

  /**
   Whatever requests arrive, a rescan ends with the lock free, no request waiting and no
   redissection owed; and unless the user stopped it, with all frames up to date, and with
   all of them listed if it redissected (or was asked to on the way).
   */
  lemma {:induction false} RescanIs(w: World, s: Session, redissect: bool)
    requires Valid(w, s) && !s.readLock && s.asked < s.epan + (if redissect then 1 else 0) && s.state != Closed
    ensures var r := Rescan(w, s, redissect);
            && Idle(w, r) && SameCapture(s.frames, r.frames) && r.state != Closed
            && r.epan >= s.epan + (if redissect then 1 else 0)
            && (r.epan == s.epan ==> r.packetList == s.packetList)
            && (Readable(w, |s.frames|) && !r.stopFlag ==> UpToDate(w, r) && (r.epan != s.epan ==> ListComplete(r)))
    decreases |s.env|
  {
    hide PassOf, Finished, UpToDate, Verdict, Nums;
    PassIs(w, s, redissect);
    PassEnv(w, s, redissect);
    var p := PassOf(w, s, redissect);
    var r := Finished(p, redissect);
    if p.queued != NoRescan {
      RescanIs(w, r, redissect || p.queued == Redissect);
      CaptureTrans(s.frames, r.frames, Rescan(w, r, redissect || p.queued == Redissect).frames);
    }
  }

  lemma CaptureTrans(a: seq<Frame>, b: seq<Frame>, c: seq<Frame>)
    requires SameCapture(a, b) && SameCapture(b, c)
    ensures SameCapture(a, c)
  {
  }

  /** After a rescan that was not stopped, exactly the frames that the filter in force accepts have passed. */
  lemma {:induction false} RescanFilters(w: World, s: Session, redissect: bool)
    requires Valid(w, s) && !s.readLock && s.asked < s.epan + (if redissect then 1 else 0) && s.state != Closed
    requires Readable(w, |s.frames|)
    ensures var r := Rescan(w, s, redissect);
            !r.stopFlag ==>
              |r.frames| == |s.frames| &&
              match r.dfilter
              case None => forall i | 0 <= i < |r.frames| :: r.frames[i].passed
              case Some(f) => forall i: nat | i < |r.frames| :: r.frames[i].passed <==> w.passes(f, r.epan, i + 1)
  {
    hide Rescan, FrameMatches, BookMatches, PacketLens;
    RescanIs(w, s, redissect);
  }

  /** A pass reads frames back until it meets one that cannot be. */
  lemma {:induction false} ScanLoopReads(w: World, s: Session, filter: Option<string>, redissect: bool, sel: Selection, k: nat)
    requires k <= |s.frames| && s.book.ref <= k
    ensures var p := ScanLoop(w, s, filter, redissect, sel, k);
            && (forall i | k < i <= p.k :: w.readable(i))
            && (p.queued == NoRescan && !p.s.stopFlag && p.k < |s.frames| ==> !w.readable(p.k + 1))
    decreases |s.frames| - k
  {
    hide Added, ResetAt, Verdict, SelectionAfter, Progress, Undisturbed;
    if k < |s.frames| {
      ProgressUndisturbed(w, s);
      var s1 := Progress(w, s);
      UndisturbedSame(w, s, s1);
      if s1.queued == NoRescan && !s1.stopFlag && w.readable(k + 1) {
        ResetSame(s1, k);
        var s2 := if redissect then ResetAt(s1, k) else s1;
        var s3 := Added(s2, k, Verdict(w, filter, s2.epan)(k + 1), redissect);
        AddedCapture(s2, k, Verdict(w, filter, s2.epan)(k + 1), redissect);
        ScanLoopReads(w, s3, filter, redissect, SelectionAfter(sel, s3.frames, k), k + 1);
      }
    }
  }

  /** Frames that a redissecting pass did not reach are marked as not dissected. */
  lemma PassReads(w: World, s: Session, redissect: bool)
    ensures var p := PassOf(w, s, redissect);
            var r := Finished(p, redissect);
            && r.stopFlag == p.s.stopFlag
            && (p.queued == NoRescan && !p.s.stopFlag && !Readable(w, |s.frames|) ==> p.k < |s.frames|)
            && (redissect && p.k < |s.frames| ==> !UpToDate(w, r))
  {
    hide ScanLoop, Verdict, FrameMatches, BookMatches, PacketLens, Chosen, FirstRow;
    ScanLoopReads(w, Started(s, redissect), s.dfilter, redissect, Selection(s.currentFrame, false, false, 0, 0), 0);
    var p := PassOf(w, s, redissect);
    FinishedKeeps(p, redissect);
    if redissect && p.k < |s.frames| {
      assert !Finished(p, redissect).frames[p.k].visited;
    }
  }

  /**
   A rescan that redissected and was not stopped leaves all frames up to date if and only if
   all of them can be read back. (SessionLimits.RightByChance: not so for a plain one.)
   */
  lemma {:induction false} UpToDateExactly(w: World, s: Session, redissect: bool)
    requires Valid(w, s) && !s.readLock && s.asked < s.epan + (if redissect then 1 else 0) && s.state != Closed
    ensures var r := Rescan(w, s, redissect);
            !r.stopFlag && r.epan != s.epan ==> (UpToDate(w, r) <==> Readable(w, |s.frames|))
    decreases |s.env|
  {
    hide PassOf, Finished, UpToDate, Verdict, Nums, Readable;
    RescanIs(w, s, redissect);
    PassIs(w, s, redissect);
    PassEnv(w, s, redissect);
    PassReads(w, s, redissect);
    var p := PassOf(w, s, redissect);
    var r := Finished(p, redissect);
    if p.queued != NoRescan {
      var again := redissect || p.queued == Redissect;
      UpToDateExactly(w, r, again);
      RescanIs(w, r, again);
      assert Rescan(w, s, redissect) == Rescan(w, r, again);
    } else {
      assert Rescan(w, s, redissect) == r;
    }
  }

  /* ---------- cf_read ---------- */

  predicate FitsFile(records: seq<Record>) {
    forall i :: 0 <= i < |records| ==> records[i].pktLen < U32
  }

  /** What holds while cf_read reads: without a request, all frames so far are done and listed. */
  predicate ReadInv(w: World, s: Session, filter: Option<string>) {
    && Valid(w, s) && s.readLock && !s.redissecting && s.book.ref <= |s.frames|
    && |s.packetList| <= |s.frames| && s.packetList == Nums(|s.packetList|)
    && (s.queued == NoRescan ==>
          ScannedTo(w, s, filter, |s.frames|) && |s.packetList| == |s.frames| && s.dfilter == filter && s.asked < s.epan)
    && (s.asked < s.epan || (s.asked == s.epan && s.queued == Redissect))
  }

  lemma ReadInvUndisturbed(w: World, s: Session, r: Session, filter: Option<string>)
    requires ReadInv(w, s, filter) && Undisturbed(w, s, r)
    ensures ReadInv(w, r, filter)
  {
    hide Verdict, FrameMatches, BookMatches, PacketLens, Nums;
  }

  lemma ScannedLonger(w: World, s: Session, filter: Option<string>, f: Frame)
    requires ScannedTo(w, s, filter, |s.frames|) && f.pktLen < U32
    ensures ScannedTo(w, s.(frames := s.frames + [f]), filter, |s.frames|)
  {
    hide Verdict, FrameMatches, BookMatches;
    LongerMatches(s.frames, f, s.book);
  }

  lemma LongerMatches(fs: seq<Frame>, f: Frame, b: Book)
    requires BookMatches(fs, |fs|, b)
    ensures BookMatches(fs + [f], |fs|, b)
    ensures forall i | 0 <= i < |fs| :: FrameMatches(fs, i) ==> FrameMatches(fs + [f], i)
  {
    hide LatestRef, BytesSinceRef, LatestDisplayed, LatestPassed, FirstDisplayed, DisplayedCount, FrameMatches;
    var gs := fs + [f];
    SameSpecs(fs, gs, |fs|);
    forall i | 0 <= i < |fs| && FrameMatches(fs, i) ensures FrameMatches(gs, i) {
      LongerMatchesAt(fs, gs, i);
    }
  }

  lemma LongerMatchesAt(fs: seq<Frame>, gs: seq<Frame>, i: nat)
    requires i < |fs| && fs <= gs && FrameMatches(fs, i)
    ensures FrameMatches(gs, i)
  {
    hide LatestRef, BytesSinceRef, LatestDisplayed, LatestPassed, FirstDisplayed, DisplayedCount;
    SameSpecs(fs, gs, i);
    SameSpecs(fs, gs, i + 1);
  }

  lemma ReadInvRecord(w: World, s: Session, filter: Option<string>, rec: Record)
    requires ReadInv(w, s, filter) && rec.pktLen < U32
    ensures ReadInv(w, RecordAdded(w, s, filter, rec), filter)
  {
    hide Verdict, ScannedTo, AddedFrame, BookAfter, PacketLens;
    if rec.wanted {
      var f := Frame(rec.pktLen, rec.absTs, false, false, false, (s.book.cumBytes + rec.pktLen) % U32, 0, 0);
      var s1 := s.(frames := s.frames + [f]);
      LensLonger(s.frames, f);
      if s.queued == NoRescan {
        var n := |s.frames|;
        var passed := Verdict(w, filter, s.epan)(n + 1);
        ScannedLonger(w, s, filter, f);
        AddedScanned(w, s1, filter, n, true);
        ScannedLens(w, Added(s1, n, passed, true), filter, n + 1);
        assert Nums(n + 1) == Nums(n) + [n + 1];
      }
    }
  }

  lemma LensLonger(fs: seq<Frame>, f: Frame)
    requires f.pktLen < U32
    ensures PacketLens(fs) ==> PacketLens(fs + [f])
  {
  }

  lemma {:induction false} ReadLoopIs(w: World, s: Session, filter: Option<string>, records: seq<Record>, p: ReadParams)
    requires ReadInv(w, s, filter) && FitsFile(records) && !s.stopFlag
    ensures var (r, end) := ReadLoop(w, s, filter, records, p);
            && ReadInv(w, r, filter) && r.epan == s.epan
            && (end == Aborted || (end == Stopped <==> r.stopFlag))
    decreases |records|
  {
    hide ReadInv, Verdict, Progress, Undisturbed, RecordAdded;
    assert s.book.ref <= |s.frames| by { ReadInvRef(w, s, filter); }
    if records != [] && !(p.sizeKnown && |s.frames| == p.maxRecords) {
      ProgressUndisturbed(w, s);
      var s1 := if p.sizeKnown then Progress(w, s) else s;
      UndisturbedSame(w, s, Progress(w, s));
      ReadInvUndisturbed(w, s, Progress(w, s), filter);
      if s1.state != ReadAborted && !s1.stopFlag {
        ReadInvRef(w, s1, filter);
        var s2 := RecordAdded(w, s1, filter, records[0]);
        ReadInvRecord(w, s1, filter, records[0]);
        RecordKeeps(w, s1, filter, records[0]);
        ReadInvRef(w, s2, filter);
        ReadLoopIs(w, s2, filter, records[1..], p);
      }
    }
  }

  lemma ReadInvRef(w: World, s: Session, filter: Option<string>)
    requires ReadInv(w, s, filter)
    ensures s.book.ref <= |s.frames|
  {
  }

  lemma RecordKeeps(w: World, s: Session, filter: Option<string>, rec: Record)
    requires s.book.ref <= |s.frames|
    ensures var r := RecordAdded(w, s, filter, rec);
            r.epan == s.epan && r.stopFlag == s.stopFlag && r.queued == s.queued && r.env == s.env && r.state == s.state
  {
  }

  /** A file just opened, possibly with a request that was queued before. */
  predicate Opened(w: World, s: Session) {
    && Valid(w, s) && !s.readLock && !s.redissecting && s.state == ReadInProgress
    && s.frames == [] && s.packetList == [] && s.book == EmptyBook(s.book.elapsed)
    && s.asked < s.epan
  }

  /** The session when cf_read's loop ends. */
  function AfterLoop(w: World, s: Session, records: seq<Record>, p: ReadParams): (Session, ReadEnd)
    requires s.book.ref <= |s.frames|
  {
    ReadLoop(w, s.(readLock := true, stopFlag := false), s.dfilter, records, p)
  }

  lemma LoadedKeeps(w: World, s: Session)
    requires Valid(w, s)
    ensures var r := Loaded(s);
            && Valid(w, r) && !r.readLock && r.state == ReadDone
            && r == s.(state := ReadDone, readLock := false, currentFrame := r.currentFrame)
  {
    FirstRowBound(s.packetList, s.frames);
  }

  /**
   Reading a file: the lock is released, no request is left waiting and no redissection is
   owed.  If neither the reading nor the rescan after it was stopped, all frames are up to
   date; and the packet list holds all of them exactly if a redissection took place or no
   frame came after the first request.
   */
  lemma {:induction false} ReadIs(w: World, s: Session, records: seq<Record>, p: ReadParams)
    requires Opened(w, s) && FitsFile(records) && Readable(w, |AfterLoop(w, s, records, p).0.frames|)
    ensures var (loop, end) := AfterLoop(w, s, records, p);
            var (r, status) := Read(w, s, records, p);
            && (status == ReadGivenUp <==> end == Aborted)
            && (status == ReadGivenUp ==> r.state == Closed && r.frames == [] && r.queued == NoRescan && !r.readLock)
            && (status != ReadGivenUp ==> Idle(w, r) && r.state == ReadDone && |r.frames| == |loop.frames|)
            && (status == ReadOk <==> end != Aborted && end != TooMany && !p.failed && !r.stopFlag)
            && (status != ReadGivenUp && !r.stopFlag ==>
                  && UpToDate(w, r)
                  && (ListComplete(r) <==> r.epan != s.epan || |loop.packetList| == |loop.frames|)
                  && (loop.queued != Scan ==> ListComplete(r)))
  {
    hide ReadLoop, ScannedTo, Verdict, Loaded;
    var s0 := s.(readLock := true, stopFlag := false);
    NothingScanned(w, s0);
    ReadLoopIs(w, s0, s.dfilter, records, p);
    var loop := AfterLoop(w, s, records, p).0;
    var end := AfterLoop(w, s, records, p).1;
    LoadedKeeps(w, loop);
    var s2 := Loaded(loop);
    if end != Aborted {
      if loop.queued != NoRescan {
        RescanIs(w, s2, loop.queued == Redissect);
        RescanState(w, s2, loop.queued == Redissect);
      } else {
        LoadedScanned(w, loop, s.dfilter);
      }
    }
  }

  /** ... and so after a read. */
  lemma {:induction false} ReadFilters(w: World, s: Session, records: seq<Record>, p: ReadParams)
    requires Opened(w, s) && FitsFile(records) && Readable(w, |AfterLoop(w, s, records, p).0.frames|)
    ensures var (r, status) := Read(w, s, records, p);
            status != ReadGivenUp && !r.stopFlag ==>
              match r.dfilter
              case None => forall i | 0 <= i < |r.frames| :: r.frames[i].passed
              case Some(f) => forall i: nat | i < |r.frames| :: r.frames[i].passed <==> w.passes(f, r.epan, i + 1)
  {
    hide ReadLoop, Read, FrameMatches, BookMatches, PacketLens;
    ReadIs(w, s, records, p);
  }

  lemma NothingScanned(w: World, s: Session)
    requires s.frames == [] && s.book == EmptyBook(s.book.elapsed)
    ensures ScannedTo(w, s, s.dfilter, 0)
  {
  }

  lemma LoadedScanned(w: World, s: Session, filter: Option<string>)
    requires ScannedTo(w, s, filter, |s.frames|)
    ensures ScannedTo(w, Loaded(s), filter, |s.frames|)
  {
    hide FirstRow, Verdict, FrameMatches, BookMatches, PacketLens;
  }

  lemma {:induction false} RescanState(w: World, s: Session, redissect: bool)
    requires Valid(w, s) && !s.readLock && s.asked < s.epan + (if redissect then 1 else 0) && s.state == ReadDone
    ensures Rescan(w, s, redissect).state == ReadDone
    decreases |s.env|
  {
    hide PassOf, Finished, UpToDate, Verdict, Nums;
    PassIs(w, s, redissect);
    PassEnv(w, s, redissect);
    var p := PassOf(w, s, redissect);
    if p.queued != NoRescan {
      RescanState(w, Finished(p, redissect), redissect || p.queued == Redissect);
    }
  }

  /* ---------- runs ---------- */

  /** What the user can do between passes; reloading opens and reads the file again. */
  datatype Op =
    | UserFilter(text: Option<string>, force: bool)
    | UserRedissect
    | Reload(records: seq<Record>, params: ReadParams)

  function Step(w: World, s: Session, op: Op): Session
    requires s.book.ref <= |s.frames|
  {
    match op
    case UserFilter(text, force) => Filter(w, s, text, force)
    case UserRedissect => RedissectPackets(w, s)
    case Reload(records, params) => Read(w, OpenedFile(s), records, params).0
  }

  /** The packet list holds the first frames, in order, each once. */
  predicate Listed(s: Session) {
    |s.packetList| <= |s.frames| && s.packetList == Nums(|s.packetList|)
  }

  /** Between passes; unless the last one was stopped, all frames are up to date. */
  predicate Settled(w: World, s: Session) {
    && Idle(w, s) && s.book.ref <= |s.frames| && Listed(s)
    && (s.state == Closed || s.stopFlag || UpToDate(w, s))
  }

  predicate GoodOp(op: Op) {
    op.Reload? ==> FitsFile(op.records)
  }

  lemma {:induction false} RescanListed(w: World, s: Session, redissect: bool)
    requires Valid(w, s) && !s.readLock && s.asked < s.epan + (if redissect then 1 else 0) && Listed(s)
    ensures Listed(Rescan(w, s, redissect))
    decreases |s.env|
  {
    hide PassOf, Finished, UpToDate, Verdict;
    PassIs(w, s, redissect);
    PassEnv(w, s, redissect);
    var p := PassOf(w, s, redissect);
    if p.queued != NoRescan {
      RescanListed(w, Finished(p, redissect), redissect || p.queued == Redissect);
    }
  }

  lemma RescanSettles(w: World, s: Session, redissect: bool)
    requires Valid(w, s) && !s.readLock && s.asked < s.epan + (if redissect then 1 else 0) && s.state != Closed
    requires AllReadable(w) && Listed(s)
    ensures Settled(w, Rescan(w, s, redissect))
  {
    hide Rescan, UpToDate, Verdict, Listed;
    RescanListed(w, s, redissect);
    RescanIs(w, s, redissect);
    RescanRef(w, s, redissect);
  }

  lemma {:induction false} RescanRef(w: World, s: Session, redissect: bool)
    requires Valid(w, s) && s.asked < s.epan + (if redissect then 1 else 0) && !s.readLock
    ensures var r := Rescan(w, s, redissect); r.book.ref <= |r.frames|
    decreases |s.env|
  {
    hide PassOf, Finished, UpToDate, Verdict, Nums;
    PassIs(w, s, redissect);
    PassEnv(w, s, redissect);
    PassRef(w, s, redissect);
    var p := PassOf(w, s, redissect);
    if p.queued != NoRescan {
      RescanRef(w, Finished(p, redissect), redissect || p.queued == Redissect);
    }
  }

  lemma PassRef(w: World, s: Session, redissect: bool)
    requires Valid(w, s) && s.asked < s.epan + (if redissect then 1 else 0)
    ensures var r := Finished(PassOf(w, s, redissect), redissect); r.book.ref <= |r.frames|
  {
    hide ScanLoop, Verdict, Finished, Nums, FrameMatches, BookMatches;
    var sel := Selection(s.currentFrame, false, false, 0, 0);
    var t := Started(s, redissect);
    StartedInv(w, s, redissect);
    ScanLoopIs(w, t, s.dfilter, redissect, sel, s.packetList, 0);
    var p := PassOf(w, s, redissect);
    assert p == ScanLoop(w, t, s.dfilter, redissect, sel, 0);
    FinishedKeeps(p, redissect);
    BookRef(p.s.frames, p.k, p.s.book);
  }

  lemma OpenedIs(w: World, s: Session)
    requires Idle(w, s)
    ensures Opened(w, OpenedFile(s))
  {
  }

  lemma ReadSettles(w: World, s: Session, records: seq<Record>, p: ReadParams)
    requires Opened(w, s) && FitsFile(records) && Readable(w, |AfterLoop(w, s, records, p).0.frames|)
    ensures Settled(w, Read(w, s, records, p).0)
  {
    hide UpToDate, Verdict, ReadLoop, Rescan, Loaded, Listed;
    ReadIs(w, s, records, p);
    ReadListed(w, s, records, p);
    ReadRef(w, s, records, p);
    ReadClosed(w, s, records, p);
  }

  lemma ReadClosed(w: World, s: Session, records: seq<Record>, p: ReadParams)
    requires Opened(w, s) && FitsFile(records)
    ensures var (r, status) := Read(w, s, records, p);
            status == ReadGivenUp ==> Idle(w, r)
  {
    hide ReadLoop, ScannedTo, Verdict, Loaded;
    var s0 := s.(readLock := true, stopFlag := false);
    NothingScanned(w, s0);
    ReadLoopIs(w, s0, s.dfilter, records, p);
    LoadedKeeps(w, AfterLoop(w, s, records, p).0);
  }

  lemma ReadListed(w: World, s: Session, records: seq<Record>, p: ReadParams)
    requires Opened(w, s) && FitsFile(records)
    ensures Listed(Read(w, s, records, p).0)
  {
    hide ReadLoop, ScannedTo, Verdict, Loaded, Rescan, Nums;
    var s0 := s.(readLock := true, stopFlag := false);
    NothingScanned(w, s0);
    ReadLoopIs(w, s0, s.dfilter, records, p);
    var (loop, end) := AfterLoop(w, s, records, p);
    LoadedKeeps(w, loop);
    assert Nums(0) == [];
    if loop.queued != NoRescan && end != Aborted {
      RescanListed(w, Loaded(loop), loop.queued == Redissect);
    }
  }

  lemma ReadRef(w: World, s: Session, records: seq<Record>, p: ReadParams)
    requires Opened(w, s) && FitsFile(records)
    ensures var r := Read(w, s, records, p).0; r.book.ref <= |r.frames|
  {
    hide ReadLoop, ScannedTo, Verdict, Loaded;
    var s0 := s.(readLock := true, stopFlag := false);
    NothingScanned(w, s0);
    ReadLoopIs(w, s0, s.dfilter, records, p);
    var loop := AfterLoop(w, s, records, p).0;
    LoadedKeeps(w, loop);
    if loop.queued != NoRescan && AfterLoop(w, s, records, p).1 != Aborted {
      RescanRef(w, Loaded(loop), loop.queued == Redissect);
    }
  }

  /** Every operation of the user, with whatever requests arrive during it, settles again. */
  lemma {:induction false} StepSettles(w: World, s: Session, op: Op)
    requires AllReadable(w) && Settled(w, s) && GoodOp(op)
    ensures Settled(w, Step(w, s, op))
  {
    hide UpToDate, Verdict, Read, Rescan;
    match op
    case UserFilter(text, force) =>
      if !Ignored(w, s, text, force) {
        var s1 := WithFilter(w, s, text);
        if s1.state != Closed {
          RescanSettles(w, s1, false);
        }
      }
    case UserRedissect =>
      if s.state != Closed {
        RescanSettles(w, s.(asked := s.epan), true);
      }
    case Reload(records, params) =>
      OpenedIs(w, s);
      ReadSettles(w, OpenedFile(s), records, params);
  }

  ghost function Run(w: World, s: Session, ops: seq<Op>): (r: Session)
    requires AllReadable(w) && Settled(w, s) && forall i :: 0 <= i < |ops| ==> GoodOp(ops[i])
    ensures Settled(w, r)
  {
    if ops == [] then s
    else
      var t := Run(w, s, ops[..|ops| - 1]);
      StepSettles(w, t, ops[|ops| - 1]);
      Step(w, t, ops[|ops| - 1])
  }

  /** Between operations, with a file open and the last pass not stopped, the user sees what the filter in force accepts. */
  lemma {:induction false} RunFilters(w: World, s: Session, ops: seq<Op>)
    requires AllReadable(w) && Settled(w, s) && forall i :: 0 <= i < |ops| ==> GoodOp(ops[i])
    ensures var r := Run(w, s, ops);
            r.state != Closed && !r.stopFlag ==>
              match r.dfilter
              case None => forall i | 0 <= i < |r.frames| :: r.frames[i].passed
              case Some(f) => forall i: nat | i < |r.frames| :: r.frames[i].passed <==> w.passes(f, r.epan, i + 1)
  {
    hide Run, FrameMatches, BookMatches, PacketLens;
    assert Settled(w, Run(w, s, ops));
  }

  /** Without reloading, an operation that is not stopped keeps a complete list, and one that redissects makes it so. */
  lemma {:induction false} StepCompletes(w: World, s: Session, op: Op)
    requires AllReadable(w) && Settled(w, s) && !op.Reload?
    ensures var r := Step(w, s, op);
            && (r.epan == s.epan ==> r.packetList == s.packetList && |r.frames| == |s.frames|)
            && (r.epan != s.epan && !r.stopFlag ==> ListComplete(r))
  {
    hide UpToDate, Verdict, Rescan, Nums;
    match op
    case UserFilter(text, force) =>
      var s1 := WithFilter(w, s, text);
      if !Ignored(w, s, text, force) && s1.state != Closed {
        RescanIs(w, s1, false);
      }
    case UserRedissect =>
      if s.state != Closed {
        RescanIs(w, s.(asked := s.epan), true);
      }
  }

  /** Once complete, the list stays complete over any number of filter changes and redissections, until one is stopped. */
  lemma {:induction false} ListStaysComplete(w: World, s: Session, ops: seq<Op>)
    requires AllReadable(w) && Settled(w, s) && ListComplete(s)
    requires forall i | 0 <= i < |ops| :: !ops[i].Reload?
    requires forall i | 0 < i <= |ops| :: !Run(w, s, ops[..i]).stopFlag
    ensures ListComplete(Run(w, s, ops))
  {
    hide Settled, Step, Nums;
    if ops != [] {
      var front := ops[..|ops| - 1];
      assert ops[..|ops|] == ops;
      forall i | 0 < i <= |front|
        ensures !Run(w, s, front[..i]).stopFlag
      {
        assert front[..i] == ops[..i];
      }
      ListStaysComplete(w, s, front);
      StepCompletes(w, Run(w, s, front), ops[|ops| - 1]);
    }
  }
}
