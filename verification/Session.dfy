/**
 The capture-file session of file.c as a state machine: reading a file, rescanning
 its packets, changing the display filter and asking for redissection.

 A user interface runs inside the progress updates of these operations, so that
 requests arrive in the middle of a pass.  `env` holds the requests still to come,
 one batch for each progress point.  The functions here say what each operation
 does to a whole session; CaptureFile.dfy proves the operations against them.
 */
module Sessions {
  import opened Basics
  import opened Frames

  datatype FileState = Closed | ReadInProgress | ReadAborted | ReadDone

  datatype RescanType = NoRescan | Scan | Redissect

  /** dfilter_compile: an error, an empty filter, or code */
  datatype Compiled = Invalid | Empty | Code

  /** What lies outside: dissection, filter compilation and random access to the file. */
  datatype World = World(
    passes: (string, nat, nat) -> bool,  // does a frame, dissected in a session, pass a filter
    compile: string -> Compiled,
    readable: nat -> bool)               // cf_read_record succeeds for a frame

  datatype Event =
    | FilterRequest(text: Option<string>, force: bool)
    | RedissectRequest
    | Stop
    | Quit

  datatype Session = Session(
    state: FileState,
    readLock: bool,
    queued: RescanType,          // redissection_queued
    redissecting: bool,
    stopFlag: bool,
    dfilter: Option<string>,
    epan: nat,                   // the dissection session, numbered in order of creation
    frames: seq<Frame>,
    packetList: seq<nat>,        // the frames appended to the packet list
    book: Book,
    currentFrame: nat,
    env: seq<seq<Event>>,
    asked: int)                  // history: the session in which redissection was last asked for, -1 for never

  predicate Valid(w: World, s: Session) {
    && (s.dfilter.Some? ==> w.compile(s.dfilter.value) == Code)
    && PacketLens(s.frames)
    && s.currentFrame <= |s.frames|
  }

  function Verdict(w: World, filter: Option<string>, epan: nat): nat -> bool {
    (n: nat) => filter.None? || w.passes(filter.value, epan, n)
  }

  /* ---------- requests ---------- */

  predicate SameText(a: Option<string>, b: Option<string>) {
    (if a.Some? then a.value else "") == (if b.Some? then b.value else "")
  }

  predicate Ignored(w: World, s: Session, text: Option<string>, force: bool) {
    (!force && SameText(text, s.dfilter)) || (text.Some? && w.compile(text.value) == Invalid)
  }

  function WithFilter(w: World, s: Session, text: Option<string>): Session {
    s.(dfilter := if text.Some? && w.compile(text.value) == Code then text else None)
  }

  /** cf_filter_packets while a pass holds the lock */
  function FilterQueued(w: World, s: Session, text: Option<string>, force: bool): Session {
    if Ignored(w, s, text, force) then s
    else
      var s1 := WithFilter(w, s, text);
      if s1.queued == NoRescan then s1.(queued := Scan) else s1
  }

  /** A request while a pass holds the lock; leaving the program takes effect only while the file is being read. */
  function Deliver(w: World, s: Session, e: Event): Session {
    match e
    case FilterRequest(text, force) => FilterQueued(w, s, text, force)
    case RedissectRequest => s.(queued := Redissect, asked := s.epan)
    case Stop => s.(stopFlag := true)
    case Quit => if s.state == ReadInProgress then s.(state := ReadAborted) else s
  }

  function DeliverAll(w: World, s: Session, batch: seq<Event>): Session {
    if batch == [] then s else Deliver(w, DeliverAll(w, s, batch[..|batch| - 1]), batch[|batch| - 1])
  }

  function Progress(w: World, s: Session): Session {
    if s.env == [] then s else DeliverAll(w, s.(env := s.env[1..]), s.env[0])
  }

  /** Nothing that a pass works on has changed, and no request has been lost. */
  predicate Undisturbed(w: World, s: Session, r: Session) {
    && r.readLock == s.readLock && r.redissecting == s.redissecting && r.epan == s.epan && r.frames == s.frames
    && r.packetList == s.packetList && r.book == s.book && r.currentFrame == s.currentFrame
    && (Valid(w, s) ==> Valid(w, r))
    && (s.queued != NoRescan ==> r.queued != NoRescan)
    && (s.queued == Redissect ==> r.queued == Redissect)
    && (r.queued == NoRescan ==> r.dfilter == s.dfilter && r.asked == s.asked)
    && (r.asked == s.asked || (r.asked == s.epan && r.queued == Redissect))
    && (s.stopFlag ==> r.stopFlag)
    && (r.state == s.state || (s.state == ReadInProgress && r.state == ReadAborted))
  }

  lemma DeliverOne(w: World, s: Session, e: Event)
    ensures Undisturbed(w, s, Deliver(w, s, e)) && Deliver(w, s, e).env == s.env
  {
    hide PacketLens, Ignored;
    if e.FilterRequest? {
      FilterQueuedKeeps(w, s, e.text, e.force);
    }
  }

  /** A queued filter change replaces the filter by one that compiles, and queues a pass. */
  lemma FilterQueuedKeeps(w: World, s: Session, text: Option<string>, force: bool)
    ensures var r := FilterQueued(w, s, text, force);
            && r == s.(dfilter := r.dfilter, queued := r.queued)
            && (r == s || (r.queued != NoRescan && (r.dfilter.Some? ==> w.compile(r.dfilter.value) == Code)))
            && (s.queued != NoRescan ==> r.queued == s.queued)
  {
    hide Ignored;
  }

  lemma UndisturbedTrans(w: World, s: Session, r: Session, t: Session)
    requires Undisturbed(w, s, r) && Undisturbed(w, r, t) && r.env == s.env
    ensures Undisturbed(w, s, t)
  {
  }

  lemma {:induction false} DeliverUndisturbed(w: World, s: Session, batch: seq<Event>)
    ensures Undisturbed(w, s, DeliverAll(w, s, batch))
    ensures DeliverAll(w, s, batch).env == s.env
  {
    hide Deliver, Undisturbed;
    if batch == [] {
      UndisturbedRefl(w, s);
    } else {
      var r := DeliverAll(w, s, batch[..|batch| - 1]);
      DeliverUndisturbed(w, s, batch[..|batch| - 1]);
      DeliverOne(w, r, batch[|batch| - 1]);
      UndisturbedTrans(w, s, r, Deliver(w, r, batch[|batch| - 1]));
    }
  }

  lemma UndisturbedRefl(w: World, s: Session)
    ensures Undisturbed(w, s, s)
  {
  }

  /** A request that arrives during a pass only leaves its mark; the pass itself is not disturbed. */
  lemma {:induction false} ProgressUndisturbed(w: World, s: Session)
    ensures var r := Progress(w, s);
            && Undisturbed(w, s, r) && |r.env| <= |s.env|
            && (s.queued == NoRescan && r.queued != NoRescan ==> |r.env| < |s.env|)
            && (s.env == [] ==> r == s)
  {
    if s.env != [] {
      DeliverUndisturbed(w, s.(env := s.env[1..]), s.env[0]);
    }
  }

  /* ---------- a pass over the frames ---------- */

  /** The frames remembered for reselection; 0 for none. */
  datatype Selection = Selection(wanted: nat, seen: bool, hit: bool, preceding: nat, following: nat)

  function SelectionAfter(sel: Selection, fs: seq<Frame>, k: nat): Selection
    requires k < |fs|
  {
    var preceding := if k > 0 && !sel.seen && fs[k - 1].passed then k else sel.preceding;
    var following := if fs[k].passed && sel.seen && sel.following == 0 then k + 1 else sel.following;
    if k + 1 == sel.wanted then Selection(sel.wanted, true, fs[k].passed, preceding, following)
    else sel.(preceding := preceding, following := following)
  }

  /** add_packet_to_packet_list for frame k + 1 */
  function Added(s: Session, k: nat, passed: bool, list: bool): Session
    requires k < |s.frames| && s.book.ref <= k
  {
    s.(frames := s.frames[k := AddedFrame(s.frames, k, passed, s.book)],
       book := BookAfter(s.frames, k, passed, s.book),
       packetList := if list then s.packetList + [k + 1] else s.packetList)
  }

  /** frame_data_reset for frame k + 1 */
  function ResetAt(s: Session, k: nat): Session
    requires k < |s.frames|
  {
    s.(frames := s.frames[k := s.frames[k].(visited := false)])
  }

  /** How the loop of a pass ended: the queued request that broke it, if any, and the first frame not reached. */
  datatype Pass = Pass(s: Session, queued: RescanType, k: nat, sel: Selection)

  function ScanLoop(w: World, s: Session, dfcode: Option<string>, redissect: bool, sel: Selection, k: nat): (p: Pass)
    requires k <= |s.frames| && s.book.ref <= k
    ensures k <= p.k <= |p.s.frames| == |s.frames|
    decreases |s.frames| - k
  {
    if k == |s.frames| then Pass(s, NoRescan, k, sel)
    else
      var s1 := Progress(w, s);
      ProgressUndisturbed(w, s);
      if s1.queued != NoRescan then Pass(s1, s1.queued, k, sel)
      else if s1.stopFlag then Pass(s1, NoRescan, k, sel)
      else
        var s2 := if redissect then ResetAt(s1, k) else s1;
        if !w.readable(k + 1) then Pass(s2, NoRescan, k, sel)
        else
          var s3 := Added(s2, k, Verdict(w, dfcode, s2.epan)(k + 1), redissect);
          ScanLoop(w, s3, dfcode, redissect, SelectionAfter(sel, s3.frames, k), k + 1)
  }

  lemma {:induction false} ScanLoopEnv(w: World, s: Session, dfcode: Option<string>, redissect: bool, sel: Selection, k: nat)
    requires k <= |s.frames| && s.book.ref <= k && s.queued == NoRescan
    ensures var p := ScanLoop(w, s, dfcode, redissect, sel, k);
            && |p.s.env| <= |s.env| && (p.queued != NoRescan ==> |p.s.env| < |s.env|)
    decreases |s.frames| - k
  {
    hide AddedFrame, SelectionAfter, Verdict, Progress;
    if k < |s.frames| {
      ProgressUndisturbed(w, s);
      var s1 := Progress(w, s);
      if s1.queued == NoRescan && !s1.stopFlag && w.readable(k + 1) {
        var s2 := if redissect then ResetAt(s1, k) else s1;
        var s3 := Added(s2, k, Verdict(w, dfcode, s2.epan)(k + 1), redissect);
        ScanLoopEnv(w, s3, dfcode, redissect, SelectionAfter(sel, s3.frames, k), k + 1);
      }
    }
  }

  /** frame_data_reset for the frames from k on */
  function Forgotten(fs: seq<Frame>, k: nat): (r: seq<Frame>)
    requires k <= |fs|
    ensures |r| == |fs| && r[..k] == fs[..k]
    ensures forall i | k <= i < |fs| :: r[i] == fs[i].(visited := false)
  {
    fs[..k] + seq(|fs| - k, i requires 0 <= i < |fs| - k => fs[k + i].(visited := false))
  }

  predicate HasRow(s: Session, n: nat) {
    1 <= n <= |s.frames| && n in s.packetList && s.frames[n - 1].Displayed()
  }

  /** The first row of the packet list, 0 if it shows none. */
  function FirstRow(list: seq<nat>, fs: seq<Frame>): nat {
    if list == [] then 0
    else if 1 <= list[0] <= |fs| && fs[list[0] - 1].Displayed() then list[0]
    else FirstRow(list[1..], fs)
  }

  /** The frame chosen to be selected: None to unselect, 0 for the first row. */
  function Chosen(sel: Selection): Option<nat> {
    if sel.hit then Some(sel.wanted)
    else if sel.wanted == 0 then Some(0)
    else if sel.following == 0 then (if sel.preceding == 0 then None else Some(sel.preceding))
    else if sel.preceding == 0 then Some(sel.following)
    else Some(sel.preceding)
  }

  function Reselected(s: Session, sel: Selection): Session {
    match Chosen(sel)
    case None => s.(currentFrame := 0)
    case Some(n) =>
      if n == 0 then
        var row := FirstRow(s.packetList, s.frames);
        if row == 0 then s else s.(currentFrame := row)
      else if HasRow(s, n) then s.(currentFrame := n) else s
  }

  lemma ReselectedKeeps(s: Session, sel: Selection)
    ensures Reselected(s, sel) == s.(currentFrame := Reselected(s, sel).currentFrame)
  {
    hide Chosen, FirstRow;
  }

  /** What rescan_packets sets up before its loop. */
  function Started(s: Session, redissect: bool): Session {
    var s0 := s.(queued := NoRescan, readLock := true, stopFlag := false, book := EmptyBook(s.book.elapsed));
    if redissect then s0.(redissecting := true, epan := s.epan + 1, packetList := []) else s0
  }

  /** What it does after its loop, up to the release of the lock. */
  function Finished(p: Pass, redissect: bool): Session
    requires p.k <= |p.s.frames|
  {
    var s := p.s.(redissecting := false, frames := if redissect then Forgotten(p.s.frames, p.k) else p.s.frames);
    Reselected(s, p.sel).(readLock := false)
  }

  function PassOf(w: World, s: Session, redissect: bool): (p: Pass)
    ensures p.k <= |p.s.frames| == |s.frames|
  {
    ScanLoop(w, Started(s, redissect), s.dfilter, redissect, Selection(s.currentFrame, false, false, 0, 0), 0)
  }

  lemma {:induction false} PassEnv(w: World, s: Session, redissect: bool)
    ensures var p := PassOf(w, s, redissect);
            && |p.s.frames| == |s.frames| && p.k <= |s.frames|
            && (p.queued != NoRescan ==> |Finished(p, redissect).env| < |s.env|)
  {
    hide ScanLoop, Forgotten, Chosen, FirstRow;
    ScanLoopEnv(w, Started(s, redissect), s.dfilter, redissect, Selection(s.currentFrame, false, false, 0, 0), 0);
  }

  /** rescan_packets: a pass broken by a request is followed by another. */
  function Rescan(w: World, s: Session, redissect: bool): Session
    decreases |s.env|
  {
    PassEnv(w, s, redissect);
    var p := PassOf(w, s, redissect);
    var s1 := Finished(p, redissect);
    if p.queued == NoRescan then s1 else Rescan(w, s1, redissect || p.queued == Redissect)
  }

  /** cf_filter_packets */
  function Filter(w: World, s: Session, text: Option<string>, force: bool): Session {
    if s.readLock then FilterQueued(w, s, text, force)
    else if Ignored(w, s, text, force) then s
    else
      var s1 := WithFilter(w, s, text);
      if s1.queued == NoRescan && s1.state != Closed then Rescan(w, s1, false) else s1
  }

  /** cf_redissect_packets */
  function RedissectPackets(w: World, s: Session): Session {
    if s.readLock || s.queued == Scan then s.(queued := Redissect, asked := s.epan)
    else if s.queued != NoRescan then s.(asked := s.epan)
    else if s.state != Closed then Rescan(w, s.(asked := s.epan), true)
    else s
  }

  /* ---------- reading a file ---------- */

  /** A record of the file, and whether it passes the read filter. */
  datatype Record = Record(pktLen: nat, absTs: Time, wanted: bool)

  datatype ReadEnd = EndOfFile | TooMany | Aborted | Stopped

  datatype ReadParams = ReadParams(
    sizeKnown: bool,   // wtap_file_size gave a size; without one there is no progress bar and no limit
    maxRecords: nat,
    failed: bool)      // wtap_read ended with an error

  /** read_record */
  function RecordAdded(w: World, s: Session, dfcode: Option<string>, rec: Record): Session
    requires s.book.ref <= |s.frames|
  {
    if !rec.wanted then s
    else
      var f := Frame(rec.pktLen, rec.absTs, false, false, false, (s.book.cumBytes + rec.pktLen) % U32, 0, 0);
      var s1 := s.(frames := s.frames + [f]);
      if !s.redissecting && s.queued == NoRescan
      then Added(s1, |s.frames|, Verdict(w, dfcode, s.epan)(|s.frames| + 1), true)
      else s1
  }

  function ReadLoop(w: World, s: Session, dfcode: Option<string>, records: seq<Record>, p: ReadParams): (Session, ReadEnd)
    requires s.book.ref <= |s.frames|
    decreases |records|
  {
    if records == [] then (s, EndOfFile)
    else if p.sizeKnown && |s.frames| == p.maxRecords then (s, TooMany)
    else
      var s1 := if p.sizeKnown then Progress(w, s) else s;
      ProgressUndisturbed(w, s);
      if s1.state == ReadAborted then (s1, Aborted)
      else if s1.stopFlag then (s1, Stopped)
      else ReadLoop(w, RecordAdded(w, s1, dfcode, records[0]), dfcode, records[1..], p)
  }

  /** One step of cf_read's loop. */
  lemma ReadStep(w: World, s: Session, dfcode: Option<string>, records: seq<Record>, p: ReadParams)
    requires s.book.ref <= |s.frames|
    ensures Progress(w, s).frames == s.frames && Progress(w, s).book == s.book
    ensures ReadLoop(w, s, dfcode, records, p) ==
            if records == [] then (s, EndOfFile)
            else if p.sizeKnown && |s.frames| == p.maxRecords then (s, TooMany)
            else
              var s1 := if p.sizeKnown then Progress(w, s) else s;
              if s1.state == ReadAborted then (s1, Aborted)
              else if s1.stopFlag then (s1, Stopped)
              else ReadLoop(w, RecordAdded(w, s1, dfcode, records[0]), dfcode, records[1..], p)
  {
    hide Progress, RecordAdded;
    ProgressUndisturbed(w, s);
  }

  datatype ReadStatus = ReadOk | ReadError | ReadGivenUp

  /** cf_close */
  function ClosedFile(s: Session): Session {
    var s0 := s.(stopFlag := false);
    if s.state == Closed then s0
    else s0.(state := Closed, frames := [], packetList := [], currentFrame := 0,
             book := s.book.(ref := 0, firstDisplayed := 0, lastDisplayed := 0, elapsed := Time(0, 0)))
  }

  /** cf_open: the session starts anew, but a queued request stays. */
  function OpenedFile(s: Session): Session {
    ClosedFile(s).(state := ReadInProgress, frames := [], packetList := [], currentFrame := 0,
                   book := EmptyBook(Time(0, 0)), epan := s.epan + 1)
  }

  /** The end of cf_read's loop, up to the release of the lock. */
  function Loaded(s: Session): Session {
    var current := if s.book.firstDisplayed <= |s.frames| then s.book.firstDisplayed else 0;
    var row := FirstRow(s.packetList, s.frames);
    s.(state := ReadDone, readLock := false,
       currentFrame := if s.book.firstDisplayed != 0 && row != 0 then row else current)
  }

  /** cf_read */
  function Read(w: World, s: Session, records: seq<Record>, p: ReadParams): (Session, ReadStatus)
    requires s.book.ref <= |s.frames|
  {
    if s.readLock then (s, ReadError)
    else
      var (s1, end) := ReadLoop(w, s.(readLock := true, stopFlag := false), s.dfilter, records, p);
      var s2 := Loaded(s1);
      if end == Aborted then (ClosedFile(s2).(queued := NoRescan), ReadGivenUp)
      else
        var s3 := if s2.queued == NoRescan then s2 else Rescan(w, s2, s2.queued == Redissect);
        (s3, if s3.stopFlag || p.failed || end == TooMany then ReadError else ReadOk)
  }

  /* ---------- process_specified_records ---------- */

  datatype RangeProcess = ProcessThis | ProcessNext | ProcessingFinished

  datatype PspParams = PspParams(showProgress: bool, range: nat -> RangeProcess, callbackSucceeds: nat -> bool)

  datatype PspReturn = PspFinished | PspStopped | PspFailed

  function ProcessLoop(w: World, s: Session, p: PspParams, k: nat): (Session, PspReturn)
    requires k <= |s.frames|
    decreases |s.frames| - k
  {
    if k == |s.frames| then (s, PspFinished)
    else
      var s1 := if p.showProgress then Progress(w, s) else s;
      ProgressUndisturbed(w, s);
      if s1.stopFlag then (s1, PspStopped)
      else match p.range(k + 1)
        case ProcessNext => ProcessLoop(w, s1, p, k + 1)
        case ProcessingFinished => (s1, PspFinished)
        case ProcessThis =>
          if !w.readable(k + 1) || !p.callbackSucceeds(k + 1) then (s1, PspFailed) else ProcessLoop(w, s1, p, k + 1)
  }

  /** process_specified_records: it releases the lock without looking at what was queued meanwhile. */
  function Process(w: World, s: Session, p: PspParams): (Session, PspReturn) {
    if s.readLock then (s, PspFailed)
    else
      var (s1, r) := ProcessLoop(w, s.(readLock := true, stopFlag := false), p, 0);
      (s1.(readLock := false), r)
  }
}
