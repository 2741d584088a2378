/**
 What the script of requests decides: which requests leave one queued, when a session
 is left with a request that nobody serves, and when the packet list misses frames.
 The conditions of the theorems can be read off filter, frames or records, and script before
 the operation starts.
 */
module SessionScripts {
  import opened Basics
  import opened Frames
  import opened Sessions
  import opened SessionRuns

  /** The request asks for a pass; filters are compared with the one in force at the start. */
  predicate Asks(w: World, s: Session, e: Event) {
    match e
    case FilterRequest(text, force) => !Ignored(w, s, text, force)
    case RedissectRequest => true
    case Stop => false
    case Quit => false
  }

  predicate BatchAsks(w: World, s: Session, batch: seq<Event>) {
    exists j | 0 <= j < |batch| :: Asks(w, s, batch[j])
  }

  predicate AskedIn(w: World, s: Session, batches: seq<seq<Event>>) {
    exists i | 0 <= i < |batches| :: BatchAsks(w, s, batches[i])
  }

  predicate RedissectIn(batches: seq<seq<Event>>) {
    exists i | 0 <= i < |batches| :: RedissectRequest in batches[i]
  }

  /** The batches delivered on the way from s to r. */
  function Delivered(s: Session, r: Session): seq<seq<Event>>
    requires |r.env| <= |s.env|
  {
    s.env[..|s.env| - |r.env|]
  }

  /* ---------- one progress point ---------- */

  lemma {:induction false} DeliverAllDecides(w: World, s: Session, batch: seq<Event>)
    ensures var r := DeliverAll(w, s, batch);
            && (r.queued == Redissect <==> s.queued == Redissect || RedissectRequest in batch)
            && (r.queued != NoRescan <==> s.queued != NoRescan || BatchAsks(w, s, batch))
            && (r.queued == NoRescan ==> r.dfilter == s.dfilter)
            && (r.stopFlag <==> s.stopFlag || Stop in batch)
            && (r.state == if s.state == ReadInProgress && Quit in batch then ReadAborted else s.state)
  {
    if batch != [] {
      var front, e := batch[..|batch| - 1], batch[|batch| - 1];
      DeliverAllDecides(w, s, front);
      assert batch == front + [e];
      BatchGrows(w, s, front, e);
      DeliverDecides(w, s, DeliverAll(w, s, front), e);
    }
  }

  /** The two are the same filter; no filter and an empty one are. */
  predicate SameFilter(a: Option<string>, b: Option<string>) {
    a == b || (a == None && b == Some("")) || (a == Some("") && b == None)
  }

  /**
   What a request for a filter does. One that is in force already, if not forced, and one that
   does not compile, do nothing; an empty one leaves no filter. While a pass holds the lock, or a
   request is waiting, no pass is started.
   */
  lemma {:induction false} FilterRequestMeans(w: World, s: Session, text: Option<string>, force: bool)
    ensures var r := Filter(w, s, text, force);
            var filter := if text.Some? && w.compile(text.value) == Code then text else None;
            if (SameFilter(text, s.dfilter) && !force) || (text.Some? && w.compile(text.value) == Invalid) then r == s
            else if s.readLock then
              r == s.(dfilter := filter, queued := if s.queued == Redissect then Redissect else Scan)
            else if s.queued != NoRescan || s.state == Closed then r == s.(dfilter := filter)
            else r == Rescan(w, s.(dfilter := filter), false)
  {
    hide Rescan;
  }

  /** What a request to redissect does: a waiting request becomes one; otherwise, with a file open, a pass is started. */
  lemma {:induction false} RedissectRequestMeans(w: World, s: Session)
    ensures var r := RedissectPackets(w, s);
            && (s.readLock || s.queued != NoRescan ==> r == s.(queued := Redissect, asked := s.epan))
            && (!s.readLock && s.queued == NoRescan ==>
                  r == if s.state == Closed then s else Rescan(w, s.(asked := s.epan), true))
  {
    hide Rescan;
  }

  lemma BatchGrows(w: World, s: Session, front: seq<Event>, e: Event)
    ensures BatchAsks(w, s, front + [e]) <==> BatchAsks(w, s, front) || Asks(w, s, e)
  {
    hide Asks;
    var batch := front + [e];
    assert batch[|front|] == e;
    forall j | 0 <= j < |front| && Asks(w, s, front[j])
      ensures Asks(w, s, batch[j])
    {
    }
  }

  lemma DeliverDecides(w: World, s: Session, t: Session, e: Event)
    requires t.queued == NoRescan ==> t.dfilter == s.dfilter
    ensures var r := Deliver(w, t, e);
            && (r.queued == Redissect <==> t.queued == Redissect || e == RedissectRequest)
            && (r.queued != NoRescan <==> t.queued != NoRescan || Asks(w, s, e))
            && (r.queued == NoRescan ==> r.dfilter == s.dfilter)
            && (r.stopFlag <==> t.stopFlag || e == Stop)
            && (r.state == if t.state == ReadInProgress && e == Quit then ReadAborted else t.state)
  {
  }

  /* ---------- a loop with progress points ---------- */

  /** A loop has gone from s to r: what the batches delivered to it have left behind. */
  predicate Ran(w: World, s: Session, r: Session) {
    |r.env| <= |s.env| && r.env == s.env[|s.env| - |r.env|..] &&
    (r.queued == Redissect <==> s.queued == Redissect || RedissectIn(Delivered(s, r))) &&
    (r.queued != NoRescan <==> s.queued != NoRescan || AskedIn(w, s, Delivered(s, r))) &&
    (r.queued == NoRescan ==> r.dfilter == s.dfilter)
  }

  /** A step that delivers nothing. */
  predicate SameScript(s: Session, r: Session) {
    r.env == s.env && r.queued == s.queued && r.dfilter == s.dfilter
  }

  lemma RanStill(w: World, s: Session, r: Session)
    requires SameScript(s, r)
    ensures Ran(w, s, r)
  {
  }

  lemma RanProgress(w: World, s: Session)
    ensures Ran(w, s, Progress(w, s))
    ensures s.env != [] ==> Delivered(s, Progress(w, s)) == [s.env[0]]
  {
    if s.env != [] {
      var t := s.(env := s.env[1..]);
      DeliverAllDecides(w, t, s.env[0]);
      DeliverUndisturbed(w, t, s.env[0]);
      SameAsking(w, s, t, [s.env[0]]);
      var d := Delivered(s, Progress(w, s));
      assert d == [s.env[0]] && d[0] == s.env[0];
      OneBatch(w, t, s.env[0]);
    }
  }

  lemma OneBatch(w: World, s: Session, batch: seq<Event>)
    ensures AskedIn(w, s, [batch]) <==> BatchAsks(w, s, batch)
    ensures RedissectIn([batch]) <==> RedissectRequest in batch
  {
    hide BatchAsks;
    assert [batch][0] == batch;
  }

  lemma SameAsking(w: World, s: Session, t: Session, batches: seq<seq<Event>>)
    requires t.dfilter == s.dfilter
    ensures AskedIn(w, t, batches) <==> AskedIn(w, s, batches)
    ensures forall batch :: BatchAsks(w, t, batch) <==> BatchAsks(w, s, batch)
  {
    forall batch
      ensures BatchAsks(w, t, batch) <==> BatchAsks(w, s, batch)
    {
      assert forall e :: Asks(w, t, e) <==> Asks(w, s, e);
    }
  }

  lemma AskedInParts(w: World, s: Session, a: seq<seq<Event>>, b: seq<seq<Event>>)
    ensures AskedIn(w, s, a + b) <==> AskedIn(w, s, a) || AskedIn(w, s, b)
    ensures RedissectIn(a + b) <==> RedissectIn(a) || RedissectIn(b)
  {
    hide BatchAsks;
    forall i | 0 <= i < |b|
      ensures (a + b)[|a| + i] == b[i]
    {
    }
    forall i | 0 <= i < |a|
      ensures (a + b)[i] == a[i]
    {
    }
  }

  lemma DeliveredParts(s: Session, t: Session, r: Session)
    requires |r.env| <= |t.env| <= |s.env|
    requires t.env == s.env[|s.env| - |t.env|..] && r.env == t.env[|t.env| - |r.env|..]
    ensures r.env == s.env[|s.env| - |r.env|..] && Delivered(s, r) == Delivered(s, t) + Delivered(t, r)
  {
  }

  lemma SameDelivered(s: Session, r: Session, s': Session, r': Session)
    requires |r.env| <= |s.env| && s'.env == s.env && r'.env == r.env
    ensures Delivered(s, r) == Delivered(s', r')
  {
  }

  lemma RanOn(w: World, s: Session, t: Session, r: Session)
    requires Ran(w, s, t) && Ran(w, t, r)
    ensures Ran(w, s, r) && Delivered(s, r) == Delivered(s, t) + Delivered(t, r)
  {
    hide AskedIn, RedissectIn;
    DeliveredParts(s, t, r);
    AskedInParts(w, s, Delivered(s, t), Delivered(t, r));
    if t.queued == NoRescan {
      SameAsking(w, s, t, Delivered(t, r));
    }
  }

  /* ---------- process_specified_records ---------- */

  /** How many batches are delivered to its loop from frame k + 1 on. */
  function ProcessPoints(w: World, p: PspParams, count: nat, env: seq<seq<Event>>, k: nat): (n: nat)
    requires k <= count
    ensures n <= |env|
    decreases count - k
  {
    if k == count || env == [] || !p.showProgress then 0
    else if Stop in env[0] then 1
    else match p.range(k + 1)
      case ProcessNext => 1 + ProcessPoints(w, p, count, env[1..], k + 1)
      case ProcessingFinished => 1
      case ProcessThis =>
        if w.readable(k + 1) && p.callbackSucceeds(k + 1) then 1 + ProcessPoints(w, p, count, env[1..], k + 1) else 1
  }

  lemma {:induction false} ProcessLoopRan(w: World, s: Session, p: PspParams, k: nat)
    requires k <= |s.frames| && !s.stopFlag
    ensures var r := ProcessLoop(w, s, p, k).0;
            Ran(w, s, r) && r.env == s.env[ProcessPoints(w, p, |s.frames|, s.env, k)..]
    decreases |s.frames| - k
  {
    hide Ran, Progress, Delivered;
    RanStill(w, s, s);
    if k < |s.frames| {
      ProgressUndisturbed(w, s);
      StopHeard(w, s);
      var s1 := if p.showProgress then Progress(w, s) else s;
      RanProgress(w, s);
      if !s1.stopFlag {
        ProcessLoopRan(w, s1, p, k + 1);
        RanOn(w, s, s1, ProcessLoop(w, s1, p, k + 1).0);
      }
    }
  }

  lemma StopHeard(w: World, s: Session)
    ensures var r := Progress(w, s);
            && (s.env == [] ==> r == s)
            && (s.env != [] ==> r.env == s.env[1..] && (r.stopFlag <==> s.stopFlag || Stop in s.env[0]))
            && (s.env != [] ==>
                  r.state == if s.state == ReadInProgress && Quit in s.env[0] then ReadAborted else s.state)
  {
    if s.env != [] {
      DeliverAllDecides(w, s.(env := s.env[1..]), s.env[0]);
      DeliverUndisturbed(w, s.(env := s.env[1..]), s.env[0]);
    }
  }

  /**
   Processing records leaves a request queued, with nobody to serve it, if and only if
   one of the batches delivered to it asks for a pass.
   */
  lemma {:induction false} StrandedExactly(w: World, s: Session, p: PspParams)
    requires !s.readLock && s.queued == NoRescan
    ensures var r := Process(w, s, p).0;
            var n := ProcessPoints(w, p, |s.frames|, s.env, 0);
            && !r.readLock && r.env == s.env[n..]
            && (r.queued != NoRescan <==> AskedIn(w, s, s.env[..n]))
            && (r.queued == Redissect <==> RedissectIn(s.env[..n]))
  {
    hide ProcessLoop, ProcessPoints, AskedIn;
    var s0 := s.(readLock := true, stopFlag := false);
    ProcessLoopRan(w, s0, p, 0);
    var r := ProcessLoop(w, s0, p, 0).0;
    ProcessKeepsLock(w, s0, p, 0);
    var n := ProcessPoints(w, p, |s.frames|, s.env, 0);
    assert Delivered(s0, r) == s.env[..n];
    SameAsking(w, s, s0, s.env[..n]);
  }

  lemma {:induction false} ProcessKeepsLock(w: World, s: Session, p: PspParams, k: nat)
    requires k <= |s.frames|
    ensures ProcessLoop(w, s, p, k).0.frames == s.frames
    decreases |s.frames| - k
  {
    hide Progress;
    if k < |s.frames| {
      ProgressUndisturbed(w, s);
      var s1 := if p.showProgress then Progress(w, s) else s;
      if !s1.stopFlag {
        ProcessKeepsLock(w, s1, p, k + 1);
      }
    }
  }

  /* ---------- cf_read ---------- */

  /** How many records its loop reads, with `count` frames there already. */
  function RecordsRead(records: seq<Record>, p: ReadParams, env: seq<seq<Event>>, count: nat): (n: nat)
    ensures n <= |records|
    decreases |records|
  {
    if records == [] || (p.sizeKnown && count == p.maxRecords) then 0
    else if p.sizeKnown && env != [] && (Quit in env[0] || Stop in env[0]) then 0
    else
      1 + RecordsRead(records[1..], p, if p.sizeKnown && env != [] then env[1..] else env,
                      if records[0].wanted then count + 1 else count)
  }

  /** A request is waiting when record i is read. */
  predicate WaitsAt(w: World, s: Session, p: ReadParams, i: nat) {
    s.queued != NoRescan ||
    (p.sizeKnown && AskedIn(w, s, if i < |s.env| then s.env[..i + 1] else s.env))
  }

  /** No record that passes the read filter is read while a request is waiting. */
  predicate NoneMissed(w: World, s: Session, records: seq<Record>, p: ReadParams) {
    forall i | 0 <= i < RecordsRead(records, p, s.env, |s.frames|) ::
      records[i].wanted ==> !WaitsAt(w, s, p, i)
  }

  lemma RecordSameScript(w: World, s: Session, filter: Option<string>, rec: Record)
    requires s.book.ref <= |s.frames|
    ensures var r := RecordAdded(w, s, filter, rec);
            && SameScript(s, r) && r.stopFlag == s.stopFlag && r.state == s.state && r.redissecting == s.redissecting
            && |r.frames| == |s.frames| + (if rec.wanted then 1 else 0) && r.book.ref <= |r.frames|
            && |r.packetList| ==
               |s.packetList| + (if rec.wanted && !s.redissecting && s.queued == NoRescan then 1 else 0)
  {
    hide AddedFrame, Verdict;
  }

  lemma {:induction false} ReadLoopRan(w: World, s: Session, filter: Option<string>, records: seq<Record>, p: ReadParams)
    requires s.book.ref <= |s.frames| && !s.stopFlag && s.state == ReadInProgress
    ensures Ran(w, s, ReadLoop(w, s, filter, records, p).0)
    decreases |records|
  {
    hide Ran, Progress, RecordAdded, Delivered;
    RanStill(w, s, s);
    if records != [] && !(p.sizeKnown && |s.frames| == p.maxRecords) {
      ProgressUndisturbed(w, s);
      RanProgress(w, s);
      StopHeard(w, s);
      var s1 := if p.sizeKnown then Progress(w, s) else s;
      if s1.state != ReadAborted && !s1.stopFlag {
        var s2 := RecordAdded(w, s1, filter, records[0]);
        RecordSameScript(w, s1, filter, records[0]);
        RanStill(w, s1, s2);
        ReadLoopRan(w, s2, filter, records[1..], p);
        RanOn(w, s1, s2, ReadLoop(w, s2, filter, records[1..], p).0);
        RanOn(w, s, s1, ReadLoop(w, s2, filter, records[1..], p).0);
      }
    }
  }

  lemma {:induction false} ReadLoopStops(w: World, s: Session, filter: Option<string>, records: seq<Record>, p: ReadParams)
    requires s.book.ref <= |s.frames| && s.state == ReadInProgress
    ensures var (r, end) := ReadLoop(w, s, filter, records, p);
            end == Stopped ==> r.stopFlag
    decreases |records|
  {
    hide Progress, RecordAdded;
    if records != [] && !(p.sizeKnown && |s.frames| == p.maxRecords) {
      ProgressUndisturbed(w, s);
      var s1 := if p.sizeKnown then Progress(w, s) else s;
      if s1.state != ReadAborted && !s1.stopFlag {
        RecordSameScript(w, s1, filter, records[0]);
        ReadLoopStops(w, RecordAdded(w, s1, filter, records[0]), filter, records[1..], p);
      }
    }
  }

  /** The list falls behind the frames exactly by the records read while a request is waiting. */
  lemma {:induction false} ListKeepsUp(w: World, s: Session, filter: Option<string>, records: seq<Record>, p: ReadParams)
    requires s.book.ref <= |s.frames| && !s.stopFlag && s.state == ReadInProgress
    requires !s.redissecting && |s.packetList| <= |s.frames|
    ensures var r := ReadLoop(w, s, filter, records, p).0;
            && |r.packetList| <= |r.frames|
            && (|r.packetList| == |r.frames| <==> |s.packetList| == |s.frames| && NoneMissed(w, s, records, p))
    decreases |records|
  {
    hide Progress, RecordAdded, NoneMissed, WaitsAt;
    if records == [] || (p.sizeKnown && |s.frames| == p.maxRecords) {
      NoneRead(w, s, records, p);
    } else {
      ProgressUndisturbed(w, s);
      StopHeard(w, s);
      var s1 := if p.sizeKnown then Progress(w, s) else s;
      if s1.state == ReadAborted || s1.stopFlag {
        NoneRead(w, s, records, p);
      } else {
        var s2 := RecordAdded(w, s1, filter, records[0]);
        RecordSameScript(w, s1, filter, records[0]);
        ListKeepsUp(w, s2, filter, records[1..], p);
        NoneMissedNext(w, s, s1, s2, records, p);
      }
    }
  }

  lemma NoneRead(w: World, s: Session, records: seq<Record>, p: ReadParams)
    requires RecordsRead(records, p, s.env, |s.frames|) == 0
    ensures NoneMissed(w, s, records, p)
  {
  }

  lemma NoneMissedNext(w: World, s: Session, s1: Session, s2: Session, records: seq<Record>, p: ReadParams)
    requires records != [] && !(p.sizeKnown && |s.frames| == p.maxRecords)
    requires s1 == (if p.sizeKnown then Progress(w, s) else s) && s1.frames == s.frames && SameScript(s1, s2)
    requires p.sizeKnown && s.env != [] ==> Quit !in s.env[0] && Stop !in s.env[0]
    requires |s2.frames| == |s.frames| + (if records[0].wanted then 1 else 0)
    ensures NoneMissed(w, s, records, p) <==>
            (records[0].wanted ==> s1.queued == NoRescan) && NoneMissed(w, s2, records[1..], p)
  {
    hide AskedIn, Progress;
    RanProgress(w, s);
    StopHeard(w, s);
    var n := RecordsRead(records, p, s.env, |s.frames|);
    assert n == 1 + RecordsRead(records[1..], p, s2.env, |s2.frames|);
    forall i: nat | i < n
      ensures i == 0 ==> (WaitsAt(w, s, p, 0) <==> s1.queued != NoRescan)
      ensures i > 0 ==> (WaitsAt(w, s, p, i) <==> WaitsAt(w, s2, p, i - 1))
    {
      WaitsNext(w, s, s1, s2, p, i);
    }
    forall i: nat | 0 < i < n
      ensures records[i] == records[1..][i - 1]
    {
    }
  }

  /** The first batch alone. */
  lemma FirstBatch(w: World, s: Session)
    requires s.env != []
    ensures var r := Progress(w, s);
            && r.env == s.env[1..]
            && (r.queued != NoRescan <==> s.queued != NoRescan || AskedIn(w, s, [s.env[0]]))
            && (r.queued == NoRescan ==> r.dfilter == s.dfilter)
  {
    hide AskedIn, Progress, RedissectIn;
    RanProgress(w, s);
  }

  lemma WaitsNext(w: World, s: Session, s1: Session, s2: Session, p: ReadParams, i: nat)
    requires s1 == (if p.sizeKnown then Progress(w, s) else s) && SameScript(s1, s2)
    ensures i == 0 ==> (WaitsAt(w, s, p, 0) <==> s1.queued != NoRescan)
    ensures i > 0 ==> (WaitsAt(w, s, p, i) <==> WaitsAt(w, s2, p, i - 1))
  {
    hide AskedIn, Progress;
    NothingAsked(w, s);
    NothingAsked(w, s2);
    if p.sizeKnown && s.env != [] {
      FirstBatch(w, s);
      assert s.env[..1] == [s.env[0]];
      if i > 0 {
        var first, later := [s.env[0]], if i - 1 < |s2.env| then s2.env[..i] else s2.env;
        assert (if i < |s.env| then s.env[..i + 1] else s.env) == first + later;
        AskedInParts(w, s, first, later);
        SameAskingIf(w, s, s2, later);
      }
    } else {
      StopHeard(w, s);
    }
  }

  lemma SameAskingIf(w: World, s: Session, t: Session, batches: seq<seq<Event>>)
    ensures t.dfilter == s.dfilter ==> (AskedIn(w, t, batches) <==> AskedIn(w, s, batches))
  {
    hide AskedIn;
    if t.dfilter == s.dfilter {
      SameAsking(w, s, t, batches);
    }
  }

  lemma NothingAsked(w: World, s: Session)
    ensures !AskedIn(w, s, [])
  {
  }

  /* ---------- rescan_packets ---------- */

  /** How a rescan ends: the batches it leaves undelivered, and whether it is stopped. */
  datatype Fate = Fate(rest: seq<seq<Event>>, stopped: bool)

  /**
   The fate of a rescan that has k of n frames to go in its current pass. A batch that asks
   for a pass starts another; one with a Stop that does not ask for a pass as well ends it.
   */
  function RescanFate(w: World, s: Session, n: nat, k: nat, env: seq<seq<Event>>): (f: Fate)
    ensures |f.rest| <= |env|
    decreases |env|
  {
    if k == 0 || env == [] then Fate(env, false)
    else if BatchAsks(w, s, env[0]) then RescanFate(w, DeliverAll(w, s, env[0]), n, n, env[1..])
    else if Stop in env[0] then Fate(env[1..], true)
    else RescanFate(w, s, n, k - 1, env[1..])
  }

  /** What is delivered of a script, given what is left. */
  function Taken(env: seq<seq<Event>>, rest: seq<seq<Event>>): seq<seq<Event>>
    requires |rest| <= |env|
  {
    env[..|env| - |rest|]
  }

  /** Of the session it needs the filter only. */
  lemma {:induction false} FateByFilter(w: World, s: Session, t: Session, n: nat, k: nat, env: seq<seq<Event>>)
    requires s.dfilter == t.dfilter
    ensures RescanFate(w, s, n, k, env) == RescanFate(w, t, n, k, env)
    decreases |env|
  {
    hide BatchAsks;
    if k > 0 && env != [] {
      SameAsking(w, s, t, []);
      SameFilterAfter(w, s, t, env[0]);
      FateByFilter(w, DeliverAll(w, s, env[0]), DeliverAll(w, t, env[0]), n, n, env[1..]);
      FateByFilter(w, s, t, n, k - 1, env[1..]);
    }
  }

  lemma {:induction false} SameFilterAfter(w: World, s: Session, t: Session, batch: seq<Event>)
    requires s.dfilter == t.dfilter
    ensures DeliverAll(w, s, batch).dfilter == DeliverAll(w, t, batch).dfilter
  {
    hide Deliver;
    if batch != [] {
      var front, e := batch[..|batch| - 1], batch[|batch| - 1];
      SameFilterAfter(w, s, t, front);
      SameFilterAfterOne(w, DeliverAll(w, s, front), DeliverAll(w, t, front), e);
    }
  }

  lemma SameFilterAfterOne(w: World, s: Session, t: Session, e: Event)
    requires s.dfilter == t.dfilter
    ensures Deliver(w, s, e).dfilter == Deliver(w, t, e).dfilter
  {
    hide Ignored, WithFilter, Deliver;
    FilterAfterOne(w, s, e);
    FilterAfterOne(w, t, e);
    SameIgnored(w, s, t, e);
  }

  lemma FilterAfterOne(w: World, s: Session, e: Event)
    ensures Deliver(w, s, e).dfilter ==
            if e.FilterRequest? && !Ignored(w, s, e.text, e.force) then WithFilter(w, s, e.text).dfilter else s.dfilter
  {
    hide Ignored;
  }

  lemma SameIgnored(w: World, s: Session, t: Session, e: Event)
    requires s.dfilter == t.dfilter
    ensures e.FilterRequest? ==> Ignored(w, s, e.text, e.force) == Ignored(w, t, e.text, e.force)
    ensures e.FilterRequest? ==> WithFilter(w, s, e.text).dfilter == WithFilter(w, t, e.text).dfilter
  {
  }

  /** The two sides of one step of a pass. */
  lemma PassStep(w: World, s: Session, filter: Option<string>, redissect: bool, sel: Selection, k: nat)
    returns (next: Session, sel': Selection)
    requires k < |s.frames| && s.book.ref <= k && Readable(w, |s.frames|)
    requires Progress(w, s).queued == NoRescan && !Progress(w, s).stopFlag
    ensures SameScript(Progress(w, s), next) && next.epan == s.epan && !next.stopFlag
    ensures |next.frames| == |s.frames| && next.book.ref <= k + 1
    ensures ScanLoop(w, s, filter, redissect, sel, k) == ScanLoop(w, next, filter, redissect, sel', k + 1)
  {
    hide Progress, Added, Verdict, SelectionAfter;
    ProgressUndisturbed(w, s);
    var s1 := Progress(w, s);
    var s2 := if redissect then ResetAt(s1, k) else s1;
    next := Added(s2, k, Verdict(w, filter, s2.epan)(k + 1), redissect);
    AddedScript(s2, k, Verdict(w, filter, s2.epan)(k + 1), redissect);
    sel' := SelectionAfter(sel, next.frames, k);
  }

  lemma {:induction false} ScanLoopRan(w: World, s: Session, filter: Option<string>, redissect: bool, sel: Selection, k: nat)
    requires k <= |s.frames| && s.book.ref <= k && s.queued == NoRescan && Readable(w, |s.frames|)
    ensures var p := ScanLoop(w, s, filter, redissect, sel, k);
            Ran(w, s, p.s) && p.queued == p.s.queued && p.s.epan == s.epan
    decreases |s.frames| - k
  {
    hide Ran, Progress, Added, Verdict, SelectionAfter;
    RanStill(w, s, s);
    if k < |s.frames| {
      ProgressUndisturbed(w, s);
      RanProgress(w, s);
      var s1 := Progress(w, s);
      if s1.queued == NoRescan && !s1.stopFlag {
        var next, sel' := PassStep(w, s, filter, redissect, sel, k);
        RanStill(w, s1, next);
        ScanLoopRan(w, next, filter, redissect, sel', k + 1);
        RanOn(w, s1, next, ScanLoop(w, next, filter, redissect, sel', k + 1).s);
        RanOn(w, s, s1, ScanLoop(w, next, filter, redissect, sel', k + 1).s);
      }
    }
  }

  /** How the script fares during a pass from frame k + 1 on. */
  lemma {:induction false} ScanLoopFate(w: World, s: Session, filter: Option<string>, redissect: bool, sel: Selection, k: nat)
    requires k <= |s.frames| && s.book.ref <= k && s.queued == NoRescan && !s.stopFlag && Readable(w, |s.frames|)
    ensures var p := ScanLoop(w, s, filter, redissect, sel, k);
            RescanFate(w, s, |s.frames|, |s.frames| - k, s.env) ==
            if p.queued == NoRescan then Fate(p.s.env, p.s.stopFlag)
            else RescanFate(w, p.s, |s.frames|, |s.frames|, p.s.env)
    decreases |s.frames| - k
  {
    hide Progress, Added, Verdict, SelectionAfter, RescanFate;
    var n := |s.frames|;
    FateNext(w, s, n, n - k);
    if k < n {
      ProgressUndisturbed(w, s);
      FilterKept(w, s);
      var s1 := Progress(w, s);
      if s1.queued == NoRescan && !s1.stopFlag {
        var next, sel' := PassStep(w, s, filter, redissect, sel, k);
        ScanLoopFate(w, next, filter, redissect, sel', k + 1);
        FateByFilter(w, s, next, n, n - k - 1, next.env);
      }
    }
  }

  lemma FilterKept(w: World, s: Session)
    ensures Progress(w, s).queued == NoRescan ==> Progress(w, s).dfilter == s.dfilter
  {
    hide Progress, AskedIn, RedissectIn;
    RanProgress(w, s);
  }

  lemma AddedScript(s: Session, k: nat, passed: bool, list: bool)
    requires k < |s.frames| && s.book.ref <= k
    ensures var r := Added(s, k, passed, list);
            && SameScript(s, r) && r.epan == s.epan && r.stopFlag == s.stopFlag
            && |r.frames| == |s.frames| && r.book.ref <= k + 1
  {
  }

  /** The definition, in terms of the session after the next progress point. */
  lemma FateNext(w: World, s: Session, n: nat, k: nat)
    requires s.queued == NoRescan && !s.stopFlag
    ensures var r := Progress(w, s);
            RescanFate(w, s, n, k, s.env) ==
            if k == 0 then Fate(s.env, false)
            else if r.queued != NoRescan then RescanFate(w, r, n, n, r.env)
            else if r.stopFlag then Fate(r.env, true)
            else RescanFate(w, s, n, k - 1, r.env)
  {
    hide BatchAsks, AskedIn, RedissectIn;
    StopHeard(w, s);
    if s.env != [] {
      FirstBatch(w, s);
      OneBatch(w, s, s.env[0]);
      var t := s.(env := s.env[1..]);
      SameFilterAfter(w, s, t, s.env[0]);
      FateByFilter(w, DeliverAll(w, s, s.env[0]), Progress(w, s), n, n, s.env[1..]);
    }
  }

  /** Whatever happens during a rescan, filter, frame count and script say how it ends. */
  lemma {:induction false} RescanIsFated(w: World, s: Session, redissect: bool)
    requires Readable(w, |s.frames|)
    ensures var r := Rescan(w, s, redissect);
            Fate(r.env, r.stopFlag) == RescanFate(w, s, |s.frames|, |s.frames|, s.env)
    decreases |s.env|
  {
    hide ScanLoop, Finished, RescanFate;
    var t, sel := Started(s, redissect), Selection(s.currentFrame, false, false, 0, 0);
    ScanLoopFate(w, t, s.dfilter, redissect, sel, 0);
    FateByFilter(w, s, t, |s.frames|, |s.frames|, s.env);
    PassEnv(w, s, redissect);
    var p := PassOf(w, s, redissect);
    FinishedScript(p, redissect);
    if p.queued != NoRescan {
      var r1 := Finished(p, redissect);
      RescanIsFated(w, r1, redissect || p.queued == Redissect);
      FateByFilter(w, p.s, r1, |s.frames|, |s.frames|, r1.env);
    }
  }

  /** ... and whether it redissects. */
  lemma {:induction false} RescanRan(w: World, s: Session, redissect: bool)
    requires Readable(w, |s.frames|)
    ensures var r := Rescan(w, s, redissect);
            && |r.env| <= |s.env| && r.env == s.env[|s.env| - |r.env|..] && r.epan >= s.epan
            && (r.epan != s.epan <==> redissect || RedissectIn(Delivered(s, r)))
    decreases |s.env|
  {
    hide ScanLoop, Finished, RedissectIn, AskedIn, Delivered;
    var t, sel := Started(s, redissect), Selection(s.currentFrame, false, false, 0, 0);
    ScanLoopRan(w, t, s.dfilter, redissect, sel, 0);
    PassEnv(w, s, redissect);
    var p := PassOf(w, s, redissect);
    var r1 := Finished(p, redissect);
    FinishedScript(p, redissect);
    SameDelivered(t, p.s, s, r1);
    if p.queued != NoRescan {
      var again := redissect || p.queued == Redissect;
      RescanRan(w, r1, again);
      DeliveredParts(s, r1, Rescan(w, r1, again));
      AskedInParts(w, s, Delivered(s, r1), Delivered(r1, Rescan(w, r1, again)));
    }
  }

  lemma {:induction false} RescanRedissects(w: World, s: Session, redissect: bool)
    requires Readable(w, |s.frames|)
    ensures var rest := RescanFate(w, s, |s.frames|, |s.frames|, s.env).rest;
            Rescan(w, s, redissect).epan != s.epan <==> redissect || RedissectIn(Taken(s.env, rest))
  {
    hide Rescan, RescanFate, RedissectIn;
    RescanIsFated(w, s, redissect);
    RescanRan(w, s, redissect);
  }

  lemma FinishedScript(p: Pass, redissect: bool)
    requires p.k <= |p.s.frames|
    ensures var r := Finished(p, redissect);
            SameScript(p.s, r) && r.epan == p.s.epan && r.stopFlag == p.s.stopFlag && |r.frames| == |p.s.frames|
  {
    hide Forgotten, Chosen, FirstRow;
  }

  /* ---------- cf_read, exactly ---------- */

  /** How the loop of a read ends: why, the batches left, the number of frames, and a session with the filter then in force. */
  datatype LoopFate = LoopFate(end: ReadEnd, rest: seq<seq<Event>>, count: nat, t: Session)

  function ReadFate(w: World, s: Session, records: seq<Record>, p: ReadParams, env: seq<seq<Event>>, count: nat): (f: LoopFate)
    ensures |f.rest| <= |env|
    decreases |records|
  {
    if records == [] then LoopFate(EndOfFile, env, count, s)
    else if p.sizeKnown && count == p.maxRecords then LoopFate(TooMany, env, count, s)
    else
      var heard := p.sizeKnown && env != [];
      var t := if heard then DeliverAll(w, s, env[0]) else s;
      var rest := if heard then env[1..] else env;
      if heard && Quit in env[0] then LoopFate(Aborted, rest, count, t)
      else if heard && Stop in env[0] then LoopFate(Stopped, rest, count, t)
      else ReadFate(w, t, records[1..], p, rest, if records[0].wanted then count + 1 else count)
  }

  /** Of the session it needs the filter only, and gives the filter only. */
  lemma {:induction false} ReadByFilter(
      w: World, s: Session, t: Session, records: seq<Record>, p: ReadParams, env: seq<seq<Event>>, count: nat)
    requires s.dfilter == t.dfilter
    ensures var (f, g) := (ReadFate(w, s, records, p, env, count), ReadFate(w, t, records, p, env, count));
            f.end == g.end && f.rest == g.rest && f.count == g.count && f.t.dfilter == g.t.dfilter
    decreases |records|
  {
    hide DeliverAll;
    if records != [] {
      var heard := p.sizeKnown && env != [];
      if heard {
        SameFilterAfter(w, s, t, env[0]);
      }
      ReadByFilter(w, if heard then DeliverAll(w, s, env[0]) else s, if heard then DeliverAll(w, t, env[0]) else t,
                   records[1..], p, if heard then env[1..] else env, if records[0].wanted then count + 1 else count);
    }
  }

  lemma {:induction false} ReadLoopIsFated(w: World, s: Session, filter: Option<string>, records: seq<Record>, p: ReadParams)
    requires s.book.ref <= |s.frames| && !s.stopFlag && s.state == ReadInProgress
    ensures var (r, end) := ReadLoop(w, s, filter, records, p);
            var f := ReadFate(w, s, records, p, s.env, |s.frames|);
            f.end == end && f.rest == r.env && f.count == |r.frames| && f.t.dfilter == r.dfilter
    decreases |records|
  {
    hide Progress, RecordAdded, DeliverAll;
    if records != [] && !(p.sizeKnown && |s.frames| == p.maxRecords) {
      ProgressUndisturbed(w, s);
      StopHeard(w, s);
      FilterHeard(w, s);
      var s1 := if p.sizeKnown then Progress(w, s) else s;
      if s1.state != ReadAborted && !s1.stopFlag {
        RecordSameScript(w, s1, filter, records[0]);
        var s2 := RecordAdded(w, s1, filter, records[0]);
        ReadLoopIsFated(w, s2, filter, records[1..], p);
        ReadByFilter(w, s2, if p.sizeKnown && s.env != [] then DeliverAll(w, s, s.env[0]) else s,
                     records[1..], p, s2.env, |s2.frames|);
      }
    }
  }

  lemma FilterHeard(w: World, s: Session)
    ensures s.env == [] ==> Progress(w, s) == s
    ensures s.env != [] ==> Progress(w, s).dfilter == DeliverAll(w, s, s.env[0]).dfilter
  {
    hide DeliverAll;
    if s.env != [] {
      SameFilterAfter(w, s, s.(env := s.env[1..]), s.env[0]);
    }
  }

  /** The batches a read leaves undelivered, with those its rescan takes if it has one. */
  function ReadRest(w: World, s: Session, records: seq<Record>, p: ReadParams): (rest: seq<seq<Event>>)
    ensures |rest| <= |s.env|
  {
    var f := ReadFate(w, s, records, p, s.env, 0);
    if s.queued != NoRescan || AskedIn(w, s, Taken(s.env, f.rest)) then RescanFate(w, f.t, f.count, f.count, f.rest).rest
    else f.rest
  }

  /** How the script of a read shows in the session after its loop ... */
  lemma LoopScript(w: World, s: Session, records: seq<Record>, p: ReadParams)
    requires Opened(w, s)
    ensures var (loop, end) := AfterLoop(w, s, records, p);
            && |loop.env| <= |s.env| && loop.env == s.env[|s.env| - |loop.env|..]
            && (loop.queued == Redissect <==> s.queued == Redissect || RedissectIn(Delivered(s, loop)))
            && (loop.queued != NoRescan <==> s.queued != NoRescan || AskedIn(w, s, Delivered(s, loop)))
            && (|loop.packetList| == |loop.frames| <==> NoneMissed(w, s, records, p))
            && (end == Stopped ==> loop.stopFlag)
            && (var f := ReadFate(w, s, records, p, s.env, 0);
                f.end == end && f.rest == loop.env && f.count == |loop.frames| && f.t.dfilter == loop.dfilter)
  {
    hide ReadLoop, RecordsRead, RedissectIn, AskedIn, ReadFate;
    var s0 := s.(readLock := true, stopFlag := false);
    ReadLoopRan(w, s0, s.dfilter, records, p);
    ReadLoopStops(w, s0, s.dfilter, records, p);
    ReadLoopIsFated(w, s0, s.dfilter, records, p);
    ReadByFilter(w, s, s0, records, p, s.env, 0);
    ListKeepsUp(w, s0, s.dfilter, records, p);
    var loop := AfterLoop(w, s, records, p).0;
    SameAsking(w, s, s0, Delivered(s0, loop));
    NoneMissedSame(w, s, s0, records, p);
  }

  lemma NoneMissedSame(w: World, s: Session, t: Session, records: seq<Record>, p: ReadParams)
    requires SameScript(s, t) && t.frames == s.frames
    ensures NoneMissed(w, s, records, p) <==> NoneMissed(w, t, records, p)
  {
    hide AskedIn, RecordsRead;
    forall i | 0 <= i < RecordsRead(records, p, s.env, |s.frames|)
      ensures WaitsAt(w, s, p, i) <==> WaitsAt(w, t, p, i)
    {
      SameAsking(w, s, t, if i < |s.env| then s.env[..i + 1] else s.env);
    }
  }

  /** ... and in the session after the read. */
  lemma ReadScript(w: World, s: Session, records: seq<Record>, p: ReadParams)
    requires Opened(w, s) && Readable(w, ReadFate(w, s, records, p, s.env, 0).count)
    ensures var (loop, end) := AfterLoop(w, s, records, p);
            var (r, status) := Read(w, s, records, p);
            var f := ReadFate(w, s, records, p, s.env, 0);
            end != Aborted ==>
              && r.env == ReadRest(w, s, records, p)
              && (r.epan != s.epan <==> s.queued == Redissect || RedissectIn(Taken(s.env, r.env)))
              && r.stopFlag == (if loop.queued == NoRescan then loop.stopFlag
                                else RescanFate(w, f.t, f.count, f.count, f.rest).stopped)
  {
    hide ReadLoop, Rescan, RedissectIn, AskedIn, RescanFate, NoneMissed, RecordsRead, ReadFate;
    LoopScript(w, s, records, p);
    var (loop, end) := AfterLoop(w, s, records, p);
    LoopEpan(w, s, records, p);
    LoadedScript(loop);
    if end != Aborted && loop.queued != NoRescan {
      var t := Loaded(loop);
      RescanRan(w, t, loop.queued == Redissect);
      RescanIsFated(w, t, loop.queued == Redissect);
      FateByFilter(w, ReadFate(w, s, records, p, s.env, 0).t, t, |loop.frames|, |loop.frames|, loop.env);
      var r := Rescan(w, t, loop.queued == Redissect);
      DeliveredParts(s, loop, r);
      SameDelivered(t, r, loop, r);
      AskedInParts(w, s, Delivered(s, loop), Delivered(t, r));
    }
  }

  lemma LoadedScript(s: Session)
    ensures var r := Loaded(s);
            SameScript(s, r) && r.epan == s.epan && r.stopFlag == s.stopFlag && r.frames == s.frames
  {
    hide FirstRow;
  }

  lemma LoopEpan(w: World, s: Session, records: seq<Record>, p: ReadParams)
    requires Opened(w, s)
    ensures AfterLoop(w, s, records, p).0.epan == s.epan
  {
    EpanStays(w, s.(readLock := true, stopFlag := false), s.dfilter, records, p);
  }

  lemma {:induction false} EpanStays(w: World, s: Session, filter: Option<string>, records: seq<Record>, p: ReadParams)
    requires s.book.ref <= |s.frames|
    ensures ReadLoop(w, s, filter, records, p).0.epan == s.epan
    decreases |records|
  {
    hide Progress, RecordAdded;
    if records != [] && !(p.sizeKnown && |s.frames| == p.maxRecords) {
      ProgressUndisturbed(w, s);
      var s1 := if p.sizeKnown then Progress(w, s) else s;
      if s1.state != ReadAborted && !s1.stopFlag {
        RecordSameScript(w, s1, filter, records[0]);
        RecordKeeps(w, s1, filter, records[0]);
        EpanStays(w, RecordAdded(w, s1, filter, records[0]), filter, records[1..], p);
      }
    }
  }

  /**
   After an un-stopped read the packet list is complete if and only if a redissection was
   asked for, before it or in the batches it takes, or no record was read while a request
   was waiting.
   */
  lemma {:induction false} ListCompleteExactly(w: World, s: Session, records: seq<Record>, p: ReadParams)
    requires Opened(w, s) && FitsFile(records) && Readable(w, ReadFate(w, s, records, p, s.env, 0).count)
    ensures var (r, status) := Read(w, s, records, p);
            status != ReadGivenUp && !r.stopFlag ==>
              (ListComplete(r) <==>
                 || s.queued == Redissect || RedissectIn(Taken(s.env, ReadRest(w, s, records, p)))
                 || NoneMissed(w, s, records, p))
  {
    hide ReadLoop, ScannedTo, Verdict, Loaded, Rescan, NoneMissed, RedissectIn, AskedIn, ReadFate, RescanFate, ReadRest;
    LoopScript(w, s, records, p);
    ReadIs(w, s, records, p);
    ReadScript(w, s, records, p);
  }

  /**
   A read that the user stopped is reported as complete if and only if a pass was asked for,
   before it or up to the batch with the Stop, and the rest of the script does not stop
   the rescan that serves the request.
   */
  lemma {:induction false} StopForgottenExactly(w: World, s: Session, records: seq<Record>, p: ReadParams)
    requires Opened(w, s) && !p.failed
    requires ReadFate(w, s, records, p, s.env, 0).end == Stopped && Readable(w, ReadFate(w, s, records, p, s.env, 0).count)
    ensures var f := ReadFate(w, s, records, p, s.env, 0);
            Read(w, s, records, p).1 == ReadOk <==>
              && (s.queued != NoRescan || AskedIn(w, s, Taken(s.env, f.rest)))
              && !RescanFate(w, f.t, f.count, f.count, f.rest).stopped
  {
    hide ReadLoop, Rescan, RedissectIn, AskedIn, RescanFate, NoneMissed, RecordsRead, ReadFate;
    LoopScript(w, s, records, p);
    ReadScript(w, s, records, p);
  }
}
