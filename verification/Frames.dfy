/**
 The frame table of a capture file and the bookkeeping done for each frame:
 when it is added to the packet list (add_packet_to_packet_list in file.c with
 frame_data_set_before_dissect and frame_data_set_after_dissect), and again when only
 the time references have changed (ref_time_packets).

 Frames are numbered from 1; frame number 0 stands for NULL.
 */
module Frames {
  import opened Basics

  const NS_PER_S := 1_000_000_000

  datatype Frame = Frame(
    pktLen: nat,
    absTs: Time,
    refTime: bool,       // marked as a time reference
    passed: bool,        // passed_dfilter
    visited: bool,       // dissected in the current session
    cumBytes: nat,
    frameRefNum: nat,
    prevDisNum: nat)
  {
    predicate Displayed() {
      passed || refTime
    }
  }

  /** nstime_delta: b - a */
  function Delta(b: Time, a: Time): Time {
    var secs, nsecs := b.secs - a.secs, b.nsecs - a.nsecs;
    if secs == 0 then Time(0, nsecs)
    else if secs < 0 then (if nsecs > 0 then Time(secs + 1, nsecs - NS_PER_S) else Time(secs, nsecs))
    else (if nsecs < 0 then Time(secs - 1, nsecs + NS_PER_S) else Time(secs, nsecs))
  }

  /** As a number of nanoseconds. */
  function Nanos(t: Time): int {
    t.secs * 1_000_000_000 + t.nsecs
  }

  predicate Normal(t: Time) {
    0 <= t.nsecs < 1_000_000_000
  }

  /** It is the difference of the two times; of normalised ones, in the form in which seconds and nanoseconds have one sign. */
  lemma {:induction false} DeltaIsDifference(b: Time, a: Time)
    ensures Nanos(Delta(b, a)) == Nanos(b) - Nanos(a)
    ensures Normal(a) && Normal(b) ==>
              var d := Delta(b, a);
              -1_000_000_000 < d.nsecs < 1_000_000_000 && (d.secs > 0 ==> d.nsecs >= 0) && (d.secs < 0 ==> d.nsecs <= 0)
  {
  }

  predicate Before(a: Time, b: Time) {
    a.secs < b.secs || (a.secs == b.secs && a.nsecs < b.nsecs)
  }

  function Later(a: Time, b: Time): Time {
    if Before(a, b) then b else a
  }

  /** The elapsed time after a frame at rel; the old value is compared through a cast to 32 bits. */
  function NextElapsed(elapsed: Time, rel: Time): Time {
    if Before(Time(Int32(elapsed.secs), Int32(elapsed.nsecs)), rel) then rel else elapsed
  }

  predicate Fits(t: Time) {
    Int32(t.secs) == t.secs && Int32(t.nsecs) == t.nsecs
  }

  /** The elapsed time is a running maximum, whatever comes next, exactly if it fits the cast. */
  lemma {:induction false} ElapsedIsMaximum(elapsed: Time)
    ensures (forall rel: Time :: NextElapsed(elapsed, rel) == Later(elapsed, rel)) <==> Fits(elapsed)
  {
    if !Fits(elapsed) {
      var rel :=
        if Int32(elapsed.secs) < elapsed.secs then Time(elapsed.secs - 1, 0)
        else if Int32(elapsed.secs) > elapsed.secs then Time(elapsed.secs + 1, 0)
        else if Int32(elapsed.nsecs) < elapsed.nsecs then Time(elapsed.secs, elapsed.nsecs - 1)
        else Time(elapsed.secs, elapsed.nsecs + 1);
      assert NextElapsed(elapsed, rel) != Later(elapsed, rel);
    }
  }

  /* ---------- adding a frame to the packet list ---------- */

  /** The fields of a capture_file that a pass over the frames keeps up to date. */
  datatype Book = Book(
    ref: nat,
    prevDis: nat,
    cumBytes: nat,
    elapsed: Time,
    displayedCount: nat,
    firstDisplayed: nat,
    lastDisplayed: nat)

  function EmptyBook(elapsed: Time): Book {
    Book(0, 0, 0, elapsed, 0, 0, 0)
  }

  function NextRef(ref: nat, fs: seq<Frame>, k: nat): nat
    requires k < |fs|
  {
    if fs[k].refTime || ref == 0 then k + 1 else ref
  }

  function NextCum(cum: nat, f: Frame): nat {
    if !f.Displayed() then cum else if f.refTime then f.pktLen else (cum + f.pktLen) % U32
  }

  /** Frame k + 1 as the pass leaves it; the filter has said whether it passed. */
  function AddedFrame(fs: seq<Frame>, k: nat, passed: bool, b: Book): Frame
    requires k < |fs| && b.ref <= k
  {
    var f := fs[k].(passed := passed);
    var ref := NextRef(b.ref, fs, k);
    f.(visited := true,
       frameRefNum := if ref == k + 1 then 0 else ref,
       prevDisNum := b.prevDis,
       cumBytes := if f.Displayed() then NextCum(b.cumBytes, f) else f.cumBytes)
  }

  function BookAfter(fs: seq<Frame>, k: nat, passed: bool, b: Book): (r: Book)
    requires k < |fs| && b.ref <= k
    ensures 0 < r.ref <= k + 1
  {
    var f := fs[k].(passed := passed);
    var ref := NextRef(b.ref, fs, k);
    var shown := f.Displayed();
    Book(ref,
         if shown then k + 1 else b.prevDis,
         NextCum(b.cumBytes, f),
         NextElapsed(b.elapsed, Delta(f.absTs, fs[ref - 1].absTs)),
         if shown then b.displayedCount + 1 else b.displayedCount,
         if shown && b.firstDisplayed == 0 then k + 1 else b.firstDisplayed,
         if shown then k + 1 else b.lastDisplayed)
  }

  /** frame_data_set_before_dissect */
  function SetBeforeDissect(fs: seq<Frame>, k: nat, b: Book): (Frame, Book)
    requires k < |fs| && b.ref <= k
  {
    var f := fs[k];
    var ref0 := if b.ref == 0 then k + 1 else b.ref;
    var ref := if f.refTime then k + 1 else ref0;
    (f.(frameRefNum := if ref != k + 1 then ref else 0, prevDisNum := b.prevDis),
     b.(ref := ref, elapsed := NextElapsed(b.elapsed, Delta(f.absTs, fs[ref - 1].absTs))))
  }

  /** frame_data_set_after_dissect */
  function SetAfterDissect(f: Frame, b: Book): (Frame, Book) {
    var cum := if f.refTime then f.pktLen else (b.cumBytes + f.pktLen) % U32;
    (f.(cumBytes := cum), b.(cumBytes := cum))
  }

  /** AddedFrame and BookAfter are the two, with dissection between them and the counters beside them. */
  lemma {:induction false} AddedInSteps(fs: seq<Frame>, k: nat, passed: bool, b: Book)
    requires k < |fs| && b.ref <= k
    ensures var (f0, b0) := SetBeforeDissect(fs, k, b);
            var f := f0.(visited := true, passed := passed);
            && (!f.Displayed() ==> AddedFrame(fs, k, passed, b) == f && BookAfter(fs, k, passed, b) == b0)
            && (f.Displayed() ==>
                  var (f1, b1) := SetAfterDissect(f, b0.(displayedCount := b.displayedCount + 1));
                  && AddedFrame(fs, k, passed, b) == f1
                  && BookAfter(fs, k, passed, b)
                     == b1.(prevDis := k + 1, lastDisplayed := k + 1,
                            firstDisplayed := if b.firstDisplayed == 0 then k + 1 else b.firstDisplayed))
            && f0.refTime == fs[k].refTime && b0.displayedCount == b.displayedCount && b0.firstDisplayed == b.firstDisplayed
            && SetAfterDissect(f, b0.(displayedCount := b.displayedCount + 1)).1.firstDisplayed == b.firstDisplayed
  {
    hide NextElapsed, Delta;
  }

  /* ---------- what the fields should say ---------- */

  /** The latest time reference among the first k frames, frame 1 if there is none, 0 if there are no frames. */
  function LatestRef(fs: seq<Frame>, k: nat): (r: nat)
    requires k <= |fs|
    ensures r <= k && (r == 0 <==> k == 0)
  {
    if k == 0 then 0
    else if fs[k - 1].refTime || k == 1 then k
    else LatestRef(fs, k - 1)
  }

  /** The bytes of the displayed frames among the first k, since and including the latest time reference. */
  function BytesSinceRef(fs: seq<Frame>, k: nat): nat
    requires k <= |fs|
  {
    if k == 0 then 0
    else if fs[k - 1].refTime then fs[k - 1].pktLen
    else BytesSinceRef(fs, k - 1) + (if fs[k - 1].passed then fs[k - 1].pktLen else 0)
  }

  function LatestDisplayed(fs: seq<Frame>, k: nat): (r: nat)
    requires k <= |fs|
    ensures r <= k && (r > 0 ==> fs[r - 1].Displayed())
    ensures forall i | r <= i < k :: !fs[i].Displayed()
  {
    if k == 0 then 0 else if fs[k - 1].Displayed() then k else LatestDisplayed(fs, k - 1)
  }

  function LatestPassed(fs: seq<Frame>, k: nat): (r: nat)
    requires k <= |fs|
    ensures r <= k && (r > 0 ==> fs[r - 1].passed)
    ensures forall i | r <= i < k :: !fs[i].passed
  {
    if k == 0 then 0 else if fs[k - 1].passed then k else LatestPassed(fs, k - 1)
  }

  function FirstDisplayed(fs: seq<Frame>, k: nat): (r: nat)
    requires k <= |fs|
    ensures r <= k && (r > 0 ==> fs[r - 1].Displayed())
    ensures forall i | 0 <= i < (if r == 0 then k else r - 1) :: !fs[i].Displayed()
  {
    if k == 0 then 0
    else if FirstDisplayed(fs, k - 1) > 0 then FirstDisplayed(fs, k - 1)
    else if fs[k - 1].Displayed() then k else 0
  }

  function DisplayedCount(fs: seq<Frame>, k: nat): (r: nat)
    requires k <= |fs|
    ensures r <= k
  {
    if k == 0 then 0 else DisplayedCount(fs, k - 1) + (if fs[k - 1].Displayed() then 1 else 0)
  }

  function PacketLens(fs: seq<Frame>): bool {
    forall i :: 0 <= i < |fs| ==> fs[i].pktLen < U32
  }

  /** The book after the first k frames. */
  predicate BookMatches(fs: seq<Frame>, k: nat, b: Book)
    requires k <= |fs|
  {
    && b.ref == LatestRef(fs, k)
    && b.prevDis == LatestDisplayed(fs, k)
    && b.cumBytes == BytesSinceRef(fs, k) % U32
    && b.displayedCount == DisplayedCount(fs, k)
    && b.firstDisplayed == FirstDisplayed(fs, k)
    && b.lastDisplayed == LatestDisplayed(fs, k)
  }

  /** Frame k + 1 as a pass should leave it. */
  predicate FrameMatches(fs: seq<Frame>, k: nat)
    requires k < |fs|
  {
    && fs[k].frameRefNum == (if LatestRef(fs, k + 1) == k + 1 then 0 else LatestRef(fs, k + 1))
    && fs[k].prevDisNum == LatestDisplayed(fs, k)
    && (fs[k].Displayed() ==> fs[k].cumBytes == BytesSinceRef(fs, k + 1) % U32)
  }

  /** The fields on which the specifications above depend are the same in the first k frames. */
  predicate SameInput(fs: seq<Frame>, gs: seq<Frame>, k: nat) {
    k <= |fs| && k <= |gs|
    && forall i | 0 <= i < k ::
         fs[i].pktLen == gs[i].pktLen && fs[i].refTime == gs[i].refTime && fs[i].passed == gs[i].passed
  }

  lemma {:induction false} SameSpecs(fs: seq<Frame>, gs: seq<Frame>, k: nat)
    requires SameInput(fs, gs, k)
    ensures LatestRef(fs, k) == LatestRef(gs, k)
    ensures BytesSinceRef(fs, k) == BytesSinceRef(gs, k)
    ensures LatestDisplayed(fs, k) == LatestDisplayed(gs, k)
    ensures LatestPassed(fs, k) == LatestPassed(gs, k)
    ensures FirstDisplayed(fs, k) == FirstDisplayed(gs, k)
    ensures DisplayedCount(fs, k) == DisplayedCount(gs, k)
  {
    if k > 0 {
      SameSpecs(fs, gs, k - 1);
    }
  }

  lemma ModAdd(a: nat, b: nat)
    ensures (a % U32 + b) % U32 == (a + b) % U32
  {
  }

  /** Adding a frame to the packet list keeps the book and the frames added so far as they should be. */
  lemma {:induction false} AddingMatches(fs: seq<Frame>, k: nat, passed: bool, b: Book)
    requires k < |fs| && PacketLens(fs) && BookMatches(fs, k, b)
    ensures var gs := fs[k := AddedFrame(fs, k, passed, b)];
            BookMatches(gs, k + 1, BookAfter(fs, k, passed, b)) && FrameMatches(gs, k)
            && SameInput(fs, gs, k) && PacketLens(gs)
  {
    hide LatestRef, BytesSinceRef, LatestDisplayed, FirstDisplayed, DisplayedCount, NextElapsed, Delta;
    var gs := fs[k := AddedFrame(fs, k, passed, b)];
    SameSpecs(fs, gs, k);
    SpecsNext(gs, k);
    CumIs(BytesSinceRef(fs, k), b, gs[k]);
    AddedFrameKeeps(fs, k, passed, b);
  }

  /** The specifications for one more frame. */
  lemma SpecsNext(fs: seq<Frame>, k: nat)
    requires k < |fs|
    ensures LatestRef(fs, k + 1) == if fs[k].refTime || k == 0 then k + 1 else LatestRef(fs, k)
    ensures BytesSinceRef(fs, k + 1) ==
            if fs[k].refTime then fs[k].pktLen else BytesSinceRef(fs, k) + (if fs[k].passed then fs[k].pktLen else 0)
    ensures LatestDisplayed(fs, k + 1) == if fs[k].Displayed() then k + 1 else LatestDisplayed(fs, k)
    ensures FirstDisplayed(fs, k + 1) ==
            if FirstDisplayed(fs, k) > 0 then FirstDisplayed(fs, k) else if fs[k].Displayed() then k + 1 else 0
    ensures DisplayedCount(fs, k + 1) == DisplayedCount(fs, k) + (if fs[k].Displayed() then 1 else 0)
    ensures LatestPassed(fs, k + 1) == if fs[k].passed then k + 1 else LatestPassed(fs, k)
    ensures LatestRef(fs, 0) == 0
  {
  }

  lemma CumIs(bytes: nat, b: Book, f: Frame)
    requires b.cumBytes == bytes % U32 && f.pktLen < U32
    ensures NextCum(b.cumBytes, f) ==
            (if f.refTime then f.pktLen else bytes + (if f.passed then f.pktLen else 0)) % U32
  {
    ModAdd(bytes, f.pktLen);
  }

  /** ... and does not disturb what is said of the earlier frames. */
  lemma EarlierStillMatch(fs: seq<Frame>, gs: seq<Frame>, j: nat, k: nat)
    requires j < k <= |fs| && |gs| == |fs| && gs[..k] == fs[..k] && FrameMatches(fs, j)
    ensures FrameMatches(gs, j)
  {
    hide LatestRef, BytesSinceRef, LatestDisplayed, LatestPassed, FirstDisplayed, DisplayedCount;
    forall i | 0 <= i < k ensures gs[i] == fs[i] {
      assert gs[i] == gs[..k][i] == fs[..k][i];
    }
    SameSpecs(fs, gs, j);
    SameSpecs(fs, gs, j + 1);
  }

  /* ---------- a pass over all frames ---------- */

  /** The first n frames added to the packet list, with the filter's verdict on each. */
  function ScanUpTo(fs: seq<Frame>, verdict: nat -> bool, elapsed: Time, n: nat): (r: (seq<Frame>, Book))
    requires n <= |fs|
    ensures |r.0| == |fs| && r.1.ref <= n
  {
    if n == 0 then (fs, EmptyBook(elapsed))
    else
      var r := ScanUpTo(fs, verdict, elapsed, n - 1);
      (r.0[n - 1 := AddedFrame(r.0, n - 1, verdict(n), r.1)], BookAfter(r.0, n - 1, verdict(n), r.1))
  }

  /** What a pass leaves alone. */
  predicate SameCapture(fs: seq<Frame>, gs: seq<Frame>) {
    |fs| == |gs|
    && forall i | 0 <= i < |fs| ::
         fs[i].pktLen == gs[i].pktLen && fs[i].refTime == gs[i].refTime && fs[i].absTs == gs[i].absTs
  }

  lemma {:induction false} ScanMatches(fs: seq<Frame>, verdict: nat -> bool, elapsed: Time, n: nat)
    requires n <= |fs| && PacketLens(fs)
    ensures var (gs, b) := ScanUpTo(fs, verdict, elapsed, n);
            && SameCapture(fs, gs) && PacketLens(gs) && BookMatches(gs, n, b)
            && (forall i | 0 <= i < n :: gs[i].passed == verdict(i + 1) && gs[i].visited && FrameMatches(gs, i))
            && gs[n..] == fs[n..]
  {
    hide FrameMatches, BookMatches, AddedFrame, BookAfter;
    if n == 0 {
      EmptyMatches(fs, elapsed);
    } else {
      var r := ScanUpTo(fs, verdict, elapsed, n - 1);
      ScanMatches(fs, verdict, elapsed, n - 1);
      var gs := ScanUpTo(fs, verdict, elapsed, n).0;
      AddingMatches(r.0, n - 1, verdict(n), r.1);
      AddedFrameKeeps(r.0, n - 1, verdict(n), r.1);
      forall i | 0 <= i < n - 1 ensures FrameMatches(gs, i) {
        assert gs[..n - 1] == r.0[..n - 1];
        EarlierStillMatch(r.0, gs, i, n - 1);
      }
      assert gs[n..] == r.0[n - 1..][1..] == fs[n - 1..][1..];
    }
  }

  lemma EmptyMatches(fs: seq<Frame>, elapsed: Time)
    ensures BookMatches(fs, 0, EmptyBook(elapsed))
  {
  }

  lemma AddedFrameKeeps(fs: seq<Frame>, k: nat, passed: bool, b: Book)
    requires k < |fs| && b.ref <= k
    ensures var f := AddedFrame(fs, k, passed, b);
            && f.passed == passed && f.visited
            && f.pktLen == fs[k].pktLen && f.refTime == fs[k].refTime && f.absTs == fs[k].absTs
  {
  }

  /* ---------- ref_time_packets ---------- */

  datatype RefBook = RefBook(ref: nat, prevDis: nat, cumBytes: nat, elapsed: Time)

  function RefreshedFrame(fs: seq<Frame>, k: nat, b: RefBook): Frame
    requires k < |fs| && b.ref <= k
  {
    var f := fs[k];
    var ref := NextRef(b.ref, fs, k);
    f.(cumBytes := if f.refTime then f.pktLen else (b.cumBytes + f.pktLen) % U32,
       frameRefNum := if ref == k + 1 then 0 else ref,
       prevDisNum := if f.passed then (if b.prevDis == 0 then k + 1 else b.prevDis) else f.prevDisNum)
  }

  function RefBookAfter(fs: seq<Frame>, k: nat, b: RefBook): (r: RefBook)
    requires k < |fs| && b.ref <= k
    ensures 0 < r.ref <= k + 1
  {
    var f := fs[k];
    var ref := NextRef(b.ref, fs, k);
    RefBook(ref,
            if f.passed || b.prevDis == 0 then k + 1 else b.prevDis,
            NextCum(b.cumBytes, f),
            NextElapsed(b.elapsed, Delta(f.absTs, fs[ref - 1].absTs)))
  }

  function RefreshUpTo(fs: seq<Frame>, elapsed: Time, n: nat): (r: (seq<Frame>, RefBook))
    requires n <= |fs|
    ensures |r.0| == |fs| && r.1.ref <= n
  {
    if n == 0 then (fs, RefBook(0, 0, 0, elapsed))
    else
      var r := RefreshUpTo(fs, elapsed, n - 1);
      (r.0[n - 1 := RefreshedFrame(r.0, n - 1, r.1)], RefBookAfter(r.0, n - 1, r.1))
  }

  /** The latest passed frame among the first k > 0, frame 1 if there is none. */
  function PassedOrFirst(fs: seq<Frame>, k: nat): nat
    requires k <= |fs|
  {
    if k == 0 then 0 else if LatestPassed(fs, k) > 0 then LatestPassed(fs, k) else 1
  }

  predicate RefBookMatches(fs: seq<Frame>, k: nat, b: RefBook)
    requires k <= |fs|
  {
    b.ref == LatestRef(fs, k) && b.prevDis == PassedOrFirst(fs, k) && b.cumBytes == BytesSinceRef(fs, k) % U32
  }

  /** Frame k + 1 as ref_time_packets leaves it. */
  predicate RefreshMatches(fs: seq<Frame>, k: nat, f: Frame)
    requires k < |fs|
  {
    && f.frameRefNum == (if LatestRef(fs, k + 1) == k + 1 then 0 else LatestRef(fs, k + 1))
    && f.prevDisNum == (if !fs[k].passed then fs[k].prevDisNum else if k == 0 then 1 else PassedOrFirst(fs, k))
    && f.cumBytes == (if fs[k].Displayed() then BytesSinceRef(fs, k + 1) else BytesSinceRef(fs, k) + fs[k].pktLen) % U32
  }

  /** The pass refines the specification, frame by frame. */
  lemma {:induction false} RefreshIs(fs: seq<Frame>, elapsed: Time, n: nat)
    requires n <= |fs| && PacketLens(fs)
    ensures var (gs, b) := RefreshUpTo(fs, elapsed, n);
            && SameCapture(fs, gs) && SameInput(fs, gs, |fs|) && RefBookMatches(fs, n, b)
            && (forall i | 0 <= i < n :: RefreshMatches(fs, i, gs[i]))
            && gs[n..] == fs[n..]
  {
    hide RefreshMatches, RefBookMatches, RefreshedFrame, RefBookAfter;
    if n == 0 {
      NothingRefreshed(fs, elapsed);
    } else {
      var r := RefreshUpTo(fs, elapsed, n - 1);
      RefreshIs(fs, elapsed, n - 1);
      assert r.0[n - 1] == r.0[n - 1..][0] == fs[n - 1..][0];
      RefreshStep(fs, r.0, n - 1, r.1);
      assert RefreshUpTo(fs, elapsed, n).0[n..] == r.0[n - 1..][1..] == fs[n - 1..][1..];
    }
  }

  lemma NothingRefreshed(fs: seq<Frame>, elapsed: Time)
    ensures RefBookMatches(fs, 0, RefBook(0, 0, 0, elapsed))
  {
  }

  lemma RefreshStep(fs: seq<Frame>, gs: seq<Frame>, k: nat, b: RefBook)
    requires k < |fs| == |gs| && PacketLens(fs) && SameInput(fs, gs, |fs|) && gs[k] == fs[k]
    requires b.ref <= k && RefBookMatches(fs, k, b)
    ensures RefreshMatches(fs, k, RefreshedFrame(gs, k, b)) && RefBookMatches(fs, k + 1, RefBookAfter(gs, k, b))
    ensures var f := RefreshedFrame(gs, k, b);
            f.pktLen == fs[k].pktLen && f.refTime == fs[k].refTime && f.absTs == fs[k].absTs && f.passed == fs[k].passed
  {
    hide LatestRef, BytesSinceRef, LatestDisplayed, LatestPassed, FirstDisplayed, DisplayedCount, NextElapsed, Delta;
    SpecsNext(fs, k);
    ModAdd(BytesSinceRef(fs, k), fs[k].pktLen);
  }

  /* ---------- the elapsed time ---------- */

  /** The time of frame k + 1 relative to its reference. */
  function RelativeTime(fs: seq<Frame>, k: nat): Time
    requires k < |fs|
  {
    Delta(fs[k].absTs, fs[LatestRef(fs, k + 1) - 1].absTs)
  }

  /** The latest of a time and the relative times of the first n frames. */
  function MaxSeen(fs: seq<Frame>, elapsed: Time, n: nat): Time
    requires n <= |fs|
  {
    if n == 0 then elapsed else Later(MaxSeen(fs, elapsed, n - 1), RelativeTime(fs, n - 1))
  }

  predicate TimesFit(fs: seq<Frame>, elapsed: Time) {
    Fits(elapsed) && forall k | 0 <= k < |fs| :: Fits(RelativeTime(fs, k))
  }

  /** It is the maximum: one of them, and before none of them. */
  lemma {:induction false} MaxSeenIs(fs: seq<Frame>, elapsed: Time, n: nat)
    requires n <= |fs|
    ensures var m := MaxSeen(fs, elapsed, n);
            && !Before(m, elapsed) && (forall k | 0 <= k < n :: !Before(m, RelativeTime(fs, k)))
            && (m == elapsed || exists k | 0 <= k < n :: m == RelativeTime(fs, k))
  {
    hide Delta;
    if n > 0 {
      MaxSeenIs(fs, elapsed, n - 1);
    }
  }

  lemma {:induction false} MaxSeenFits(fs: seq<Frame>, elapsed: Time, n: nat)
    requires n <= |fs| && TimesFit(fs, elapsed)
    ensures Fits(MaxSeen(fs, elapsed, n))
  {
    hide RelativeTime, Fits;
    if n > 0 {
      MaxSeenFits(fs, elapsed, n - 1);
    }
  }

  lemma NextIsLater(elapsed: Time, rel: Time)
    requires Fits(elapsed)
    ensures NextElapsed(elapsed, rel) == Later(elapsed, rel)
  {
  }

  /** Refreshing the references leaves the maximum in the elapsed time, if all times fit the cast ... */
  lemma {:induction false} RefreshElapsed(fs: seq<Frame>, elapsed: Time, n: nat)
    requires n <= |fs| && PacketLens(fs) && TimesFit(fs, elapsed)
    ensures RefreshUpTo(fs, elapsed, n).1.elapsed == MaxSeen(fs, elapsed, n)
  {
    hide RefreshMatches, RefBookMatches, RefreshedFrame, TimesFit, NextElapsed, Later, Delta, Fits;
    if n > 0 {
      var r := RefreshUpTo(fs, elapsed, n - 1);
      RefreshElapsed(fs, elapsed, n - 1);
      MaxSeenFits(fs, elapsed, n - 1);
      NextIsLater(r.1.elapsed, RelativeTime(fs, n - 1));
      RefreshIs(fs, elapsed, n - 1);
      RefIsLatest(fs, n - 1, r.1);
    }
  }

  lemma RefIsLatest(fs: seq<Frame>, k: nat, b: RefBook)
    requires k < |fs| && RefBookMatches(fs, k, b)
    ensures NextRef(b.ref, fs, k) == LatestRef(fs, k + 1)
  {
  }

  /** ... and so does a full pass. */
  lemma {:induction false} ScanElapsed(fs: seq<Frame>, verdict: nat -> bool, elapsed: Time, n: nat)
    requires n <= |fs| && PacketLens(fs) && TimesFit(fs, elapsed)
    ensures ScanUpTo(fs, verdict, elapsed, n).1.elapsed == MaxSeen(fs, elapsed, n)
  {
    hide FrameMatches, BookMatches, AddedFrame, BookAfter, TimesFit, NextElapsed, Later, RelativeTime, SameCapture, PacketLens;
    if n > 0 {
      var r := ScanUpTo(fs, verdict, elapsed, n - 1);
      ScanElapsed(fs, verdict, elapsed, n - 1);
      MaxSeenFits(fs, elapsed, n - 1);
      NextIsLater(r.1.elapsed, RelativeTime(fs, n - 1));
      ScanMatches(fs, verdict, elapsed, n - 1);
      ElapsedAfter(fs, r.0, n - 1, verdict(n), r.1);
    }
  }

  lemma ElapsedAfter(fs: seq<Frame>, gs: seq<Frame>, k: nat, passed: bool, b: Book)
    requires k < |fs| && SameCapture(fs, gs) && BookMatches(gs, k, b) && b.ref <= k
    ensures BookAfter(gs, k, passed, b).elapsed == NextElapsed(b.elapsed, RelativeTime(fs, k))
  {
    hide BytesSinceRef, LatestDisplayed, FirstDisplayed, DisplayedCount, NextElapsed, Delta;
    SameReferences(fs, gs, k);
  }

  lemma {:induction false} SameReferences(fs: seq<Frame>, gs: seq<Frame>, k: nat)
    requires SameCapture(fs, gs) && k <= |fs|
    ensures LatestRef(fs, k) == LatestRef(gs, k)
  {
    if k > 0 {
      SameReferences(fs, gs, k - 1);
    }
  }

  /* ---------- the refresh against a full pass ---------- */

  function Verdicts(fs: seq<Frame>): nat -> bool {
    i => 0 < i <= |fs| && fs[i - 1].passed
  }

  /** Adding all frames to the packet list again, with every frame passing or not as it does now. */
  function Rescanned(fs: seq<Frame>, elapsed: Time): seq<Frame> {
    ScanUpTo(fs, Verdicts(fs), elapsed, |fs|).0
  }

  function Refreshed(fs: seq<Frame>, elapsed: Time): seq<Frame> {
    RefreshUpTo(fs, elapsed, |fs|).0
  }

  lemma RescannedIs(fs: seq<Frame>, elapsed: Time, k: nat)
    requires PacketLens(fs) && k < |fs|
    ensures var gs := Rescanned(fs, elapsed);
            && |gs| == |fs| && gs[k].passed == fs[k].passed
            && gs[k].frameRefNum == (if LatestRef(fs, k + 1) == k + 1 then 0 else LatestRef(fs, k + 1))
            && gs[k].prevDisNum == LatestDisplayed(fs, k)
            && (fs[k].Displayed() ==> gs[k].cumBytes == BytesSinceRef(fs, k + 1) % U32)
  {
    hide LatestRef, BytesSinceRef, LatestDisplayed, LatestPassed, FirstDisplayed, DisplayedCount, ScanUpTo, BookMatches;
    var gs := Rescanned(fs, elapsed);
    ScanMatches(fs, Verdicts(fs), elapsed, |fs|);
    assert SameInput(fs, gs, |fs|);
    SameSpecs(fs, gs, k);
    SameSpecs(fs, gs, k + 1);
    assert FrameMatches(gs, k);
  }

  /**
   ref_time_packets, which does not dissect, gives the same result as a full pass: the
   reference of every frame and the byte counts of every displayed frame.  The previous
   displayed frame of a passed frame is the same exactly if the frame displayed before it
   exists and has passed the filter itself or is frame 1; that of a frame that did not pass,
   which ref_time_packets leaves alone, exactly if it was right before.
   */
  lemma {:induction false} RefreshAgreesWithRescan(fs: seq<Frame>, elapsed: Time, k: nat)
    requires PacketLens(fs) && k < |fs|
    ensures var scanned, refreshed := Rescanned(fs, elapsed), Refreshed(fs, elapsed);
            && |scanned| == |refreshed| == |fs|
            && scanned[k].frameRefNum == refreshed[k].frameRefNum
            && (fs[k].Displayed() ==> scanned[k].cumBytes == refreshed[k].cumBytes)
            && (fs[k].passed ==>
                  var d := LatestDisplayed(fs, k);
                  scanned[k].prevDisNum == refreshed[k].prevDisNum <==> d > 0 && (fs[d - 1].passed || d == 1))
            && (!fs[k].passed ==>
                  (scanned[k].prevDisNum == refreshed[k].prevDisNum <==> fs[k].prevDisNum == LatestDisplayed(fs, k)))
  {
    hide LatestRef, BytesSinceRef, FirstDisplayed, DisplayedCount, ScanUpTo, RefreshUpTo, RefBookMatches,
         Rescanned, LatestDisplayed, LatestPassed;
    RescannedIs(fs, elapsed, k);
    RefreshIs(fs, elapsed, |fs|);
    assert RefreshMatches(fs, k, Refreshed(fs, elapsed)[k]);
    PreviousFrames(fs, k);
  }

  lemma {:induction false} PreviousFrames(fs: seq<Frame>, k: nat)
    requires k <= |fs|
    ensures var d, p := LatestDisplayed(fs, k), LatestPassed(fs, k);
            p <= d && (d > 0 && fs[d - 1].passed ==> p == d) && (d > 0 && !fs[d - 1].passed ==> p < d)
  {
    if k > 0 {
      PreviousFrames(fs, k - 1);
    }
  }
}
