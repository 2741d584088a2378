/**
 The intervals request of sharkd (sharkd_session.c): frames counted per interval of
 time since the first frame, one entry for each run of frames in the same interval.
 */
module Intervals {
  import opened Basics
  import opened Bits

  /** Of frame_data, what the request reads. */
  datatype Frame = Frame(absTs: Time, pktLen: uint32)

  /** A frame as the grouping sees it, and an entry of the reply. */
  datatype Item = Item(idx: int, bytes: nat)
  datatype Group = Group(idx: int, frames: nat, bytes: nat)

  datatype Reply = Reply(intervals: seq<Group>, last: int, frames: nat, bytes: nat)

  /** The result of a filter holds bits up to that of frame count. */
  predicate Covers(filter: Option<seq<byte>>, count: nat) {
    filter.Some? ==> count / 8 < |filter.value|
  }

  /** The bit of a frame in the result of a filter; without one every frame passes. */
  predicate Passes(filter: Option<seq<byte>>, framenum: nat)
    requires Covers(filter, framenum)
  {
    filter.Some? ==> filter.value[framenum / 8] / Pow2(framenum % 8) % 2 == 1
  }

  function MsecRel(ts: Time, start: Time): int {
    (ts.secs - start.secs) * 1000 + TruncDiv(ts.nsecs - start.nsecs, 1000000)
  }

  function Index(ts: Time, start: Time, interval: nat): int
    requires 0 < interval
  {
    TruncDiv(MsecRel(ts, start), interval)
  }

  /** The frames that pass, each with its interval. */
  function Items(frames: seq<Frame>, filter: Option<seq<byte>>, interval: nat, count: nat): (r: seq<Item>)
    requires count <= |frames| && Covers(filter, count) && 0 < interval
    ensures |r| <= count
  {
    if count == 0 then []
    else if !Passes(filter, count) then Items(frames, filter, interval, count - 1)
    else
      var frame := frames[count - 1];
      Items(frames, filter, interval, count - 1) +
        [Item(Index(frame.absTs, frames[0].absTs, interval), frame.pktLen)]
  }

  /** The numbers of the frames up to count that pass, in order. */
  function Passing(filter: Option<seq<byte>>, count: nat): (r: seq<nat>)
    requires Covers(filter, count)
    ensures forall i | 0 <= i < |r| :: 1 <= r[i] <= count
  {
    if count == 0 then []
    else Passing(filter, count - 1) + if Passes(filter, count) then [count] else []
  }

  /** Exactly those, each once, in increasing order. */
  lemma {:induction false} PassingExactly(filter: Option<seq<byte>>, count: nat)
    requires Covers(filter, count)
    ensures forall n: nat :: n in Passing(filter, count) <==> 1 <= n <= count && Passes(filter, n)
    ensures forall i, j | 0 <= i < j < |Passing(filter, count)| :: Passing(filter, count)[i] < Passing(filter, count)[j]
  {
    hide Passes;
    if count > 0 {
      PassingExactly(filter, count - 1);
    }
  }

  /** An item for each frame that passes, in order, with its interval and its bytes. */
  lemma {:induction false} ItemsArePassing(frames: seq<Frame>, filter: Option<seq<byte>>, interval: nat, count: nat)
    requires count <= |frames| && Covers(filter, count) && 0 < interval
    ensures var items, passing := Items(frames, filter, interval, count), Passing(filter, count);
            |items| == |passing| &&
            forall i | 0 <= i < |items| ::
              var frame := frames[passing[i] - 1];
              items[i] == Item(Index(frame.absTs, frames[0].absTs, interval), frame.pktLen)
  {
    hide Passes, Index;
    if count > 0 {
      ItemsArePassing(frames, filter, interval, count - 1);
    }
  }

  function Bytes(items: seq<Item>): nat {
    if items == [] then 0 else Bytes(items[..|items| - 1]) + items[|items| - 1].bytes
  }

  function Largest(items: seq<Item>): int {
    if items == [] then 0
    else
      var before := Largest(items[..|items| - 1]);
      if before < items[|items| - 1].idx then items[|items| - 1].idx else before
  }

  predicate SameIndex(items: seq<Item>, idx: int) {
    forall i | 0 <= i < |items| :: items[i].idx == idx
  }

  /** The items end with the longest run of one index that ends there, and the group describes it. */
  predicate LastRun(items: seq<Item>, g: Group) {
    0 < g.frames <= |items| &&
    var rest := |items| - g.frames;
    SameIndex(items[rest..], g.idx) && Bytes(items[rest..]) == g.bytes &&
    (0 < rest ==> items[rest - 1].idx != g.idx)
  }

  /** The groups divide the items, in order, into the longest runs of one index. */
  predicate Divides(groups: seq<Group>, items: seq<Item>) {
    if groups == [] then items == []
    else
      var g := groups[|groups| - 1];
      LastRun(items, g) && Divides(groups[..|groups| - 1], items[..|items| - g.frames])
  }

  lemma RunNoLonger(items: seq<Item>, x: Group, y: Group)
    requires x.frames <= |items| && y.frames <= |items| && x.idx == y.idx
    requires SameIndex(items[|items| - x.frames..], x.idx)
    requires y.frames < |items| ==> items[|items| - y.frames - 1].idx != y.idx
    ensures x.frames <= y.frames
  {
    var tail := items[|items| - x.frames..];
    forall j | |items| - x.frames <= j < |items|
      ensures items[j].idx == x.idx
    {
      assert items[j] == tail[j - (|items| - x.frames)];
    }
  }

  /** There is only one way to do so. */
  lemma {:induction false} DividesOneWay(a: seq<Group>, b: seq<Group>, items: seq<Item>)
    requires Divides(a, items) && Divides(b, items)
    ensures a == b
  {
    if a == [] || b == [] {
    } else {
      var x, y := a[|a| - 1], b[|b| - 1];
      var n := |items|;
      assert items[n - x.frames..][x.frames - 1] == items[n - y.frames..][y.frames - 1] == items[n - 1];
      RunNoLonger(items, x, y);
      RunNoLonger(items, y, x);
      DividesOneWay(a[..|a| - 1], b[..|b| - 1], items[..n - x.frames]);
      assert a == a[..|a| - 1] + [x] && b == b[..|b| - 1] + [y];
    }
  }

  /** One more item: in the last group, or a new one. */
  function Joined(groups: seq<Group>, item: Item): seq<Group> {
    var n := |groups| - 1;
    if 0 <= n && groups[n].idx == item.idx then
      groups[..n] + [Group(item.idx, groups[n].frames + 1, groups[n].bytes + item.bytes)]
    else
      groups + [Group(item.idx, 1, item.bytes)]
  }

  lemma DividesOneMore(groups: seq<Group>, items: seq<Item>, item: Item)
    requires Divides(groups, items)
    ensures Divides(Joined(groups, item), items + [item])
  {
    hide Bytes, Largest, Divides;
    LastOf(groups, items);
    var more, n := items + [item], |groups| - 1;
    if groups == [] {
      assert more[0..] == [] + [item] && more[..0] == [];
      OneMore([], item);
      LastGroup([], Group(item.idx, 1, item.bytes), more);
    } else if groups[n].idx == item.idx {
      var rest := |items| - groups[n].frames;
      assert more[rest..] == items[rest..] + [item] && more[..rest] == items[..rest];
      OneMore(items[rest..], item);
      LastGroup(groups[..n], Group(item.idx, groups[n].frames + 1, groups[n].bytes + item.bytes), more);
    } else {
      assert more[|items|..] == [] + [item] && more[..|items|] == items;
      OneMore([], item);
      assert items[|items| - groups[n].frames..][groups[n].frames - 1] == items[|items| - 1];
      LastGroup(groups, Group(item.idx, 1, item.bytes), more);
    }
  }

  lemma LastOf(groups: seq<Group>, items: seq<Item>)
    requires Divides(groups, items)
    ensures groups == [] ==> items == []
    ensures groups != [] ==>
              var g := groups[|groups| - 1];
              LastRun(items, g) && Divides(groups[..|groups| - 1], items[..|items| - g.frames])
  {
  }

  lemma OneMore(items: seq<Item>, item: Item)
    ensures Bytes(items + [item]) == Bytes(items) + item.bytes && Bytes([]) == 0
    ensures Largest(items + [item]) == if Largest(items) < item.idx then item.idx else Largest(items)
  {
    assert (items + [item])[..|items|] == items;
  }

  lemma LastGroup(groups: seq<Group>, g: Group, items: seq<Item>)
    requires LastRun(items, g) && Divides(groups, items[..|items| - g.frames])
    ensures Divides(groups + [g], items)
  {
    hide Bytes, SameIndex;
    var all := groups + [g];
    assert all[..|all| - 1] == groups && all[|all| - 1] == g;
  }

  function SumFrames(groups: seq<Group>): nat {
    if groups == [] then 0 else SumFrames(groups[..|groups| - 1]) + groups[|groups| - 1].frames
  }

  function SumBytes(groups: seq<Group>): nat {
    if groups == [] then 0 else SumBytes(groups[..|groups| - 1]) + groups[|groups| - 1].bytes
  }

  lemma {:induction false} BytesOfParts(a: seq<Item>, b: seq<Item>)
    ensures Bytes(a + b) == Bytes(a) + Bytes(b)
  {
    if b == [] {
      assert a + b == a;
    } else {
      BytesOfParts(a, b[..|b| - 1]);
      assert (a + b)[..|a + b| - 1] == a + b[..|b| - 1];
    }
  }

  /** The entries account for every frame and every byte of the totals. */
  lemma {:induction false} GroupsSumToTotals(groups: seq<Group>, items: seq<Item>)
    requires Divides(groups, items)
    ensures SumFrames(groups) == |items| && SumBytes(groups) == Bytes(items)
  {
    if groups != [] {
      var rest := |items| - groups[|groups| - 1].frames;
      GroupsSumToTotals(groups[..|groups| - 1], items[..rest]);
      BytesOfParts(items[..rest], items[rest..]);
      assert items == items[..rest] + items[rest..];
    }
  }

  /** Neither total wraps around. */
  lemma {:induction false} TotalsFit(frames: seq<Frame>, filter: Option<seq<byte>>, interval: nat, count: nat)
    requires count <= |frames| && count < U32 && Covers(filter, count) && 0 < interval
    ensures Bytes(Items(frames, filter, interval, count)) <= count * 0xFFFF_FFFF < U32 * U32
  {
    if count == 0 {
    } else {
      TotalsFit(frames, filter, interval, count - 1);
      var items := Items(frames, filter, interval, count);
      if Passes(filter, count) {
        assert items[..|items| - 1] == Items(frames, filter, interval, count - 1);
      }
    }
  }

  const DEFAULT_INTERVAL := 1000

  /**
   sharkd_session_process_intervals: no reply to an interval of zero. The variable entry
   holds the group being counted, which has no frames before the first.
   */
  method ProcessIntervals(frames: seq<Frame>, filter: Option<seq<byte>>, requested: Option<uint32>)
    returns (reply: Option<Reply>)
    requires Covers(filter, |frames|)
    ensures reply.None? <==> requested == Some(0)
    ensures reply.Some? ==>
              var items := Items(frames, filter, if requested.Some? then requested.value else DEFAULT_INTERVAL, |frames|);
              Divides(reply.value.intervals, items) && reply.value.last == Largest(items) &&
              reply.value.frames == |items| && reply.value.bytes == Bytes(items)
  {
    hide Index, Divides, Passes, Items, Bytes, Largest;
    if requested == Some(0) {
      return None;
    }
    var interval: nat := if requested.Some? then requested.value else DEFAULT_INTERVAL;
    var entries: seq<Group> := [];
    var entry, total, maxIdx := Group(0, 0, 0), Group(0, 0, 0), 0;
    ghost var groups: seq<Group>, items := [], Items(frames, filter, interval, 0);
    NoItems(frames, filter, interval);
    var framenum := 1;
    while framenum <= |frames|
      invariant 1 <= framenum <= |frames| + 1
      invariant items == Items(frames, filter, interval, framenum - 1) && Divides(groups, items)
      invariant if entry.frames == 0 then groups == entries == [] && entry == Group(0, 0, 0)
                else groups == entries + [entry]
      invariant maxIdx == Largest(items) && entry.idx <= maxIdx
      invariant total == Group(0, |items|, Bytes(items))
    {
      NextItem(frames, filter, interval, framenum, items);
      if Passes(filter, framenum) {
        var frame := frames[framenum - 1];
        var newIdx := Index(frame.absTs, frames[0].absTs, interval);
        ghost var item := Item(newIdx, frame.pktLen);
        DividesOneMore(groups, items, item);
        OneMore(items, item);
        groups := Joined(groups, item);
        items := items + [item];
        if entry.idx != newIdx {
          if entry.frames != 0 {
            entries := entries + [entry];
          }
          entry := Group(newIdx, 0, 0);
          if entry.idx > maxIdx {
            maxIdx := entry.idx;
          }
        }
        entry := entry.(frames := entry.frames + 1, bytes := entry.bytes + frame.pktLen);
        total := total.(frames := total.frames + 1, bytes := total.bytes + frame.pktLen);
      }
      framenum := framenum + 1;
    }
    if entry.frames != 0 {
      entries := entries + [entry];
    }
    reply := Some(Reply(entries, maxIdx, total.frames, total.bytes));
  }

  lemma NoItems(frames: seq<Frame>, filter: Option<seq<byte>>, interval: nat)
    requires Covers(filter, 0) && 0 < interval
    ensures Items(frames, filter, interval, 0) == [] && Divides([], [])
    ensures Bytes([]) == 0 == Largest([])
  {
  }

  lemma NextItem(frames: seq<Frame>, filter: Option<seq<byte>>, interval: nat, k: nat, items: seq<Item>)
    requires 0 < k <= |frames| && Covers(filter, k) && 0 < interval
    requires items == Items(frames, filter, interval, k - 1)
    ensures Items(frames, filter, interval, k) ==
            if !Passes(filter, k) then items
            else items + [Item(Index(frames[k - 1].absTs, frames[0].absTs, interval), frames[k - 1].pktLen)]
  {
    hide Passes, Index;
  }

  // Which interval a frame is counted in.

  const MILLION := 1000000

  /** Nanoseconds since the first frame. */
  function Elapsed(ts: Time, start: Time): int {
    (ts.secs - start.secs) * 1000 * MILLION + (ts.nsecs - start.nsecs)
  }

  predicate Normal(ts: Time) {
    0 <= ts.nsecs < 1000 * MILLION
  }

  predicate NotBefore(b: Time, a: Time) {
    a.secs < b.secs || (a.secs == b.secs && a.nsecs <= b.nsecs)
  }

  /**
   The milliseconds are those that have wholly elapsed, except that a fraction in front of
   a borrowed second is dropped upwards: then the frame counts as one millisecond later.
   */
  lemma {:induction false} MsecRelExactly(ts: Time, start: Time)
    ensures MsecRel(ts, start) == Elapsed(ts, start) / MILLION <==>
            start.nsecs <= ts.nsecs || (start.nsecs - ts.nsecs) % MILLION == 0
    ensures Elapsed(ts, start) / MILLION <= MsecRel(ts, start) <= Elapsed(ts, start) / MILLION + 1
  {
    var d := ts.nsecs - start.nsecs;
    assert Elapsed(ts, start) / MILLION == (ts.secs - start.secs) * 1000 + d / MILLION;
  }

  /**
   The index is that of the interval the milliseconds lie in, except that an interval that
   began before the first frame and is not at its start counts as the one after it: index 0
   takes in almost two intervals.
   */
  lemma {:induction false} IndexExactly(ts: Time, start: Time, interval: nat)
    requires 0 < interval
    ensures var ms := MsecRel(ts, start);
            && (Index(ts, start, interval) == ms / interval <==> 0 <= ms || ms % interval == 0)
            && ms / interval <= Index(ts, start, interval) <= ms / interval + 1
            && (Index(ts, start, interval) == 0 <==> Abs(ms) < interval)
  {
    hide MsecRel;
    var ms: int, d: int := MsecRel(ts, start), interval;
    TruncDivExactly(ms, d);
  }

  lemma TruncDivExactly(a: int, d: int)
    requires 0 < d
    ensures TruncDiv(a, d) == a / d <==> 0 <= a || a % d == 0
    ensures a / d <= TruncDiv(a, d) <= a / d + 1
    ensures TruncDiv(a, d) == 0 <==> -d < a < d
  {
    if 0 <= a {
      SmallQuotient(a, d);
    } else {
      NegativeQuotient(-a, d);
      SmallQuotient(-a, d);
    }
  }

  lemma SmallQuotient(a: int, d: int)
    requires 0 <= a && 0 < d
    ensures a / d == 0 <==> a < d
  {
    if a < d {
      ModUnique(a, d, 0, a);
    }
  }

  lemma NegativeQuotient(a: int, d: int)
    requires 0 <= a && 0 < d
    ensures (-a) / d == if a % d == 0 then -(a / d) else -(a / d) - 1
    ensures (-a) % d == 0 <==> a % d == 0
  {
    var q, r, q', r' := a / d, a % d, (-a) / d, (-a) % d;
    Opposite(d, q, r, q', r');
  }

  lemma Opposite(d: int, q: int, r: int, q': int, r': int)
    requires 0 < d && 0 <= r < d && 0 <= r' < d && q * d + r == -(q' * d + r')
    ensures q' == if r == 0 then -q else -q - 1
    ensures r' == 0 <==> r == 0
  {
    assert (q + q') * d == -(r + r');
    MulSign(q + q', d);
    assert (q + q' + 1) * d == (q + q') * d + d;
    MulSign(q + q' + 1, d);
    if q + q' == -1 {
      assert (q + q') * d == -d;
    }
  }

  lemma TruncDivMonotone(a: int, b: int, d: int)
    requires a <= b && 0 < d
    ensures TruncDiv(a, d) <= TruncDiv(b, d)
  {
    if 0 <= a {
      QuotientMonotone(a, b, d);
    } else if b <= 0 {
      QuotientMonotone(-b, -a, d);
    } else {
      QuotientMonotone(0, b, d);
      QuotientMonotone(0, -a, d);
    }
  }

  lemma QuotientMonotone(a: nat, b: nat, d: nat)
    requires a <= b && 0 < d
    ensures a / d <= b / d
  {
    var q, r := a / d, b / d;
    assert q * d <= a && b < r * d + d;
    assert (q - r - 1) * d < 0;
    MulSign(q - r - 1, d);
  }

  /** Rounding toward zero in the middle of the sum never puts a later frame before an earlier one. */
  lemma {:induction false} MsecRelMonotone(a: Time, b: Time, start: Time)
    requires Normal(a) && Normal(b) && Normal(start) && NotBefore(b, a)
    ensures MsecRel(a, start) <= MsecRel(b, start)
  {
    var x, y := a.nsecs - start.nsecs, b.nsecs - start.nsecs;
    if a.secs == b.secs {
      TruncDivMonotone(x, y, MILLION);
    } else {
      assert TruncDiv(x, MILLION) <= TruncDiv(y, MILLION) + 1000;
    }
  }

  predicate InOrder(frames: seq<Frame>) {
    forall i | 0 <= i < |frames| :: Normal(frames[i].absTs) &&
      (0 < i ==> NotBefore(frames[i].absTs, frames[i - 1].absTs))
  }

  predicate Ascending(items: seq<Item>) {
    forall i, j | 0 <= i <= j < |items| :: items[i].idx <= items[j].idx
  }

  lemma {:induction false} ItemsAscend(frames: seq<Frame>, filter: Option<seq<byte>>, interval: nat, count: nat)
    requires count <= |frames| && Covers(filter, count) && 0 < interval && InOrder(frames)
    ensures var items := Items(frames, filter, interval, count);
            Ascending(items) &&
            forall i | 0 <= i < |items| ::
              0 <= items[i].idx && 0 < count && items[i].idx <= Index(frames[count - 1].absTs, frames[0].absTs, interval)
  {
    hide Passes, MsecRel, NotBefore, TruncDiv;
    if count == 0 {
    } else {
      ItemsAscend(frames, filter, interval, count - 1);
      var start := frames[0].absTs;
      StartIsZero(start, interval);
      MsecRelMonotone(start, start, start);
      if 1 < count {
        IndexMonotone(frames[count - 2].absTs, frames[count - 1].absTs, start, interval);
        StartFirst(frames, count - 1);
        IndexMonotone(start, frames[count - 1].absTs, start, interval);
      }
    }
  }

  lemma IndexMonotone(a: Time, b: Time, start: Time, interval: nat)
    requires Normal(a) && Normal(b) && Normal(start) && NotBefore(b, a) && 0 < interval
    ensures Index(a, start, interval) <= Index(b, start, interval)
  {
    hide MsecRel, TruncDiv;
    MsecRelMonotone(a, b, start);
    TruncDivMonotone(MsecRel(a, start), MsecRel(b, start), interval);
  }

  lemma StartIsZero(start: Time, interval: nat)
    requires 0 < interval
    ensures Index(start, start, interval) == 0
  {
    assert MsecRel(start, start) == 0;
  }

  lemma {:induction false} StartFirst(frames: seq<Frame>, k: nat)
    requires InOrder(frames) && k < |frames|
    ensures NotBefore(frames[k].absTs, frames[0].absTs)
  {
    if 0 < k {
      StartFirst(frames, k - 1);
    }
  }

  /** With time stamps in order each interval has one entry, in increasing order, the last one being the reported last. */
  lemma {:induction false} IntervalsIncrease(frames: seq<Frame>, filter: Option<seq<byte>>, interval: nat, groups: seq<Group>)
    requires Covers(filter, |frames|) && 0 < interval && InOrder(frames)
    requires Divides(groups, Items(frames, filter, interval, |frames|))
    ensures forall i | 0 < i < |groups| :: groups[i - 1].idx < groups[i].idx
    ensures Largest(Items(frames, filter, interval, |frames|)) ==
            if groups == [] then 0 else groups[|groups| - 1].idx
    ensures groups != [] ==> 0 <= groups[0].idx
  {
    hide Passes, Covers, InOrder;
    var items := Items(frames, filter, interval, |frames|);
    ItemsAscend(frames, filter, interval, |frames|);
    if groups != [] {
      GroupsAscend(groups, items);
      LargestLast(items);
    }
  }

  lemma {:induction false} GroupsAscend(groups: seq<Group>, items: seq<Item>)
    requires Divides(groups, items) && Ascending(items) && groups != []
    ensures forall i | 0 < i < |groups| :: groups[i - 1].idx < groups[i].idx
    ensures groups[0].idx == items[0].idx && groups[|groups| - 1].idx == items[|items| - 1].idx
  {
    var n := |groups| - 1;
    var rest := |items| - groups[n].frames;
    assert items[rest..][groups[n].frames - 1] == items[|items| - 1];
    assert items[rest..][0] == items[rest];
    if 0 < n {
      GroupsAscend(groups[..n], items[..rest]);
      assert groups[..n][n - 1].idx == items[..rest][rest - 1].idx < groups[n].idx;
      forall i | 0 < i < |groups|
        ensures groups[i - 1].idx < groups[i].idx
      {
        assert groups[..n][i - 1] == groups[i - 1];
        assert i < n ==> groups[..n][i] == groups[i];
      }
    }
  }

  lemma {:induction false} LargestLast(items: seq<Item>)
    requires items != [] && Ascending(items) && 0 <= items[0].idx
    ensures Largest(items) == items[|items| - 1].idx
  {
    var front := items[..|items| - 1];
    if front != [] {
      LargestLast(front);
    }
  }
}
