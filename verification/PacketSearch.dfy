/**
 find_packet (file.c): the circular search for the next displayed frame that
 matches a criterion.

 The frame table is given by its count and, per frame number, whether the frame
 passed the display filter and what the criterion says about it.  The user can
 press Stop at a progress point; stops[k] says so for the k-th iteration.
 */
module PacketSearch {
  import opened Bits
  import opened ByteSearch

  datatype Direction = Forward | Backward

  datatype Search = Search(
    count: nat,                     // frames are numbered 1..count
    passed: nat -> bool,            // passed_dfilter
    criterion: nat -> MatchResult,
    start: nat,                     // the current frame, 0 when there is none
    dir: Direction,
    wrap: bool,                     // prefs.gui_find_wrap
    stops: seq<bool>)
  {
    predicate Valid() {
      start <= count
    }

    /** frame_data_sequence_find gives NULL for this number. */
    predicate NoFrame(f: nat) {
      f == 0 || count < f
    }

    /** "Go past the current frame." */
    function Next(f: nat): nat {
      match dir
      case Backward => if f <= 1 then (if wrap then count else start) else f - 1
      case Forward => if f == count then (if wrap then 1 else start) else f + 1
    }

    /** The frame number looked at in the k-th iteration. */
    function Visit(k: nat): nat {
      if k == 0 then Next(start) else Next(Visit(k - 1))
    }

    predicate StopsAt(k: nat) {
      k < |stops| && stops[k]
    }

    predicate Hit(f: nat) {
      !NoFrame(f) && passed(f) && criterion(f) != NotMatched
    }

    /** fdata == start_fd, where both may be NULL. */
    predicate BackAtStart(f: nat) {
      if NoFrame(f) then start == 0 else f == start
    }

    predicate EndsAt(k: nat) {
      StopsAt(k) || Hit(Visit(k)) || BackAtStart(Visit(k))
    }

    predicate FirstEnd(k: nat) {
      EndsAt(k) && forall i: nat | i < k :: !EndsAt(i)
    }

    /** new_fd after the search ended in iteration k; 0 stands for NULL. */
    function Result(k: nat): nat {
      if StopsAt(k) then start
      else if !Hit(Visit(k)) then 0
      else if criterion(Visit(k)) == Matched then Visit(k) else start
    }

    /** The search comes to an end. */
    predicate CanEnd() {
      || start != 0 || !wrap || count == 0
      || (exists f: nat | 1 <= f <= count :: passed(f) && criterion(f) != NotMatched)
      || (exists k: nat | k < |stops| :: stops[k])
    }
  }

  /* ---------- the order of the search ---------- */

  function Up(lo: nat, hi: nat): (r: seq<nat>)
    ensures |r| == (if lo <= hi then hi - lo + 1 else 0)
    ensures forall k: nat | k < |r| :: r[k] == lo + k
  {
    if lo <= hi then seq(hi - lo + 1, k requires k >= 0 => lo + k) else []
  }

  function Down(hi: nat, lo: nat): (r: seq<nat>)
    ensures |r| == (if lo <= hi then hi - lo + 1 else 0)
    ensures forall k: nat | k < |r| :: r[k] == hi - k
  {
    if lo <= hi then seq(hi - lo + 1, k requires 0 <= k <= hi => hi - k) else []
  }

  /** The frames after the current one in search order, around the end if wrapping, and the current one last. */
  function Order(s: Search): seq<nat>
    requires s.Valid() && s.start > 0
  {
    match s.dir
    case Forward => Up(s.start + 1, s.count) + (if s.wrap then Up(1, s.start) else [s.start])
    case Backward => Down(s.start - 1, 1) + (if s.wrap then Down(s.count, s.start) else [s.start])
  }

  /** Order as a function of the position. */
  lemma OrderAt(s: Search, k: nat)
    requires s.Valid() && s.start > 0 && k < |Order(s)|
    ensures Order(s)[k] ==
            if s.dir.Forward? then
              (if k < s.count - s.start then s.start + 1 + k else if s.wrap then k - (s.count - s.start) + 1 else s.start)
            else
              (if k < s.start - 1 then s.start - 1 - k else if s.wrap then s.count - (k - (s.start - 1)) else s.start)
    ensures |Order(s)| == if s.wrap then s.count else if s.dir.Forward? then s.count - s.start + 1 else s.start
  {
    hide Up, Down;
    var near, far :=
      if s.dir.Forward? then Up(s.start + 1, s.count) else Down(s.start - 1, 1),
      if !s.wrap then [s.start] else if s.dir.Forward? then Up(1, s.start) else Down(s.count, s.start);
    assert Order(s) == near + far;
    assert (near + far)[k] == if k < |near| then near[k] else far[k - |near|];
  }

  lemma {:induction false} VisitsFollowOrder(s: Search, k: nat)
    requires s.Valid() && s.start > 0 && k < |Order(s)|
    ensures s.Visit(k) == Order(s)[k]
    ensures s.Visit(k) == s.start <==> k == |Order(s)| - 1
  {
    hide Order;
    OrderAt(s, k);
    if k > 0 {
      VisitsFollowOrder(s, k - 1);
      OrderAt(s, k - 1);
    }
  }

  /** Where the search starts over, if it wraps with no current frame: after every round of all frames. */
  lemma {:induction false} VisitsWithoutStart(s: Search, k: nat)
    requires s.start == 0 && s.count > 0 && s.wrap
    ensures s.Visit(k) == if s.dir.Forward? then k % s.count + 1 else s.count - k % s.count
  {
    hide Search.Next;
    if k > 0 {
      VisitsWithoutStart(s, k - 1);
      ModNext(k, s.count);
      NextInRound(s, (k - 1) % s.count);
    }
    FirstInRound(s);
  }

  lemma FirstInRound(s: Search)
    requires s.start == 0 && s.count > 0 && s.wrap
    ensures s.Visit(0) == if s.dir.Forward? then 1 else s.count
    ensures 0 % s.count == 0
  {
  }

  /** The frame after the one at position r of a round, where the last is followed by the first. */
  lemma NextInRound(s: Search, r: nat)
    requires s.wrap && r < s.count
    ensures s.dir.Forward? ==> s.Next(r + 1) == if r == s.count - 1 then 1 else r + 2
    ensures s.dir.Backward? ==> s.Next(s.count - r) == if r == s.count - 1 then s.count else s.count - r - 1
  {
  }

  lemma ModNext(k: nat, n: nat)
    requires k > 0 && n > 0
    ensures k % n == if (k - 1) % n == n - 1 then 0 else (k - 1) % n + 1
  {
    if (k - 1) % n == n - 1 {
      assert k == ((k - 1) / n + 1) * n;
      ModMultiple((k - 1) / n + 1, n);
    } else {
      ModStep(k - 1, n);
    }
  }

  lemma ModMultiple(a: nat, n: nat)
    requires n > 0
    ensures (a * n) % n == 0
  {
    ModUnique(a * n, n, a, 0);
  }

  lemma ModStep(k: nat, n: nat)
    requires n > 0 && k % n < n - 1
    ensures (k + 1) % n == k % n + 1
  {
    ModUnique(k + 1, n, k / n, k % n + 1);
  }

  lemma {:induction false} VisitsUp(s: Search, k: nat)
    requires s.start == 0 && !s.wrap && s.dir == Forward && k <= s.count
    ensures s.Visit(k) == if k < s.count then k + 1 else 0
  {
    if k > 0 {
      VisitsUp(s, k - 1);
    }
  }

  /**
   The search ends exactly if there is a current frame, or wrapping is off, or
   something stops it; otherwise (wrapping, no current frame, nothing matches, Stop
   not pressed) it goes round for ever.
   */
  lemma {:induction false} Termination(s: Search)
    requires s.Valid()
    ensures s.CanEnd() <==> exists k: nat :: s.EndsAt(k)
  {
    if s.CanEnd() {
      var k := EndOf(s);
    } else {
      forall k: nat ensures !s.EndsAt(k) {
        VisitsWithoutStart(s, k);
      }
    }
  }

  lemma {:induction false} EndOf(s: Search) returns (k: nat)
    requires s.Valid() && s.CanEnd()
    ensures s.EndsAt(k)
  {
    if s.start > 0 {
      k := |Order(s)| - 1;
      VisitsFollowOrder(s, k);
    } else if s.count == 0 {
      k := 0;
    } else if !s.wrap {
      if s.dir == Forward {
        k := s.count;
        VisitsUp(s, k);
      } else {
        k := 0;
      }
    } else if exists f: nat | 1 <= f <= s.count :: s.passed(f) && s.criterion(f) != NotMatched {
      var f: nat :| 1 <= f <= s.count && s.passed(f) && s.criterion(f) != NotMatched;
      k := if s.dir.Forward? then f - 1 else s.count - f;
      VisitsWithoutStart(s, k);
      ModUnique(k, s.count, 0, k);
    } else {
      k :| k < |s.stops| && s.stops[k];
    }
  }

  /** f is the first frame of the list that is displayed and matches, 0 if none does. */
  predicate FirstMatch(s: Search, order: seq<nat>, f: nat) {
    if f == 0 then forall i | 0 <= i < |order| :: !s.passed(order[i]) || s.criterion(order[i]) == NotMatched
    else
      s.passed(f) && s.criterion(f) == Matched &&
      exists k: nat | k < |order| && order[k] == f ::
        forall i | 0 <= i < k :: !s.passed(order[i]) || s.criterion(order[i]) == NotMatched
  }

  /** There is only one. */
  lemma {:induction false} OneFirstMatch(s: Search, order: seq<nat>, f: nat, g: nat)
    requires FirstMatch(s, order, f) && FirstMatch(s, order, g) && 0 !in order
    ensures f == g
  {
  }

  /** The list of frames runs along with the visits up to the end of the search. */
  lemma FirstMatchAt(s: Search, order: seq<nat>, k: nat)
    requires s.FirstEnd(k) && !s.StopsAt(k) && s.criterion(s.Visit(k)) != ReadError
    requires forall i: nat | i <= k :: !s.Hit(s.Visit(i)) ==> i < |order| || s.NoFrame(s.Visit(i))
    requires forall i: nat | i <= k && i < |order| :: s.Visit(i) == order[i] && !s.NoFrame(order[i])
    requires s.Hit(s.Visit(k)) ==> k < |order|
    requires !s.Hit(s.Visit(k)) ==> |order| <= k + 1
    ensures FirstMatch(s, order, s.Result(k))
  {
    hide Search.Visit;
    forall i: nat | i < k && i < |order|
      ensures !s.passed(order[i]) || s.criterion(order[i]) == NotMatched
    {
      assert !s.EndsAt(i);
    }
  }

  lemma OrderNotEmpty(s: Search)
    requires s.Valid() && s.start > 0
    ensures |Order(s)| > 0
  {
  }

  lemma EndsWithOrder(s: Search, k: nat)
    requires s.Valid() && s.start > 0 && s.FirstEnd(k)
    ensures k < |Order(s)|
  {
    hide Search.Visit, Search.Next, Search.Hit, Order;
    OrderNotEmpty(s);
    var last := |Order(s)| - 1;
    VisitsFollowOrder(s, last);
    OrderAt(s, last);
    assert s.EndsAt(last);
  }

  lemma HitOrBack(s: Search, k: nat)
    requires s.FirstEnd(k) && !s.StopsAt(k) && s.start > 0
    ensures s.Hit(s.Visit(k)) || s.Visit(k) == s.start
  {
    hide Search.Visit, Search.Hit;
  }

  /**
   With a current frame, and neither a Stop nor a read error, the search yields the first
   displayed match in the order "onwards, around if wrapping, the current frame last".
   */
  lemma {:induction false} FindsFirstInOrder(s: Search, k: nat)
    requires s.Valid() && s.start > 0 && s.FirstEnd(k)
    requires forall i: nat :: !s.StopsAt(i)
    requires forall f: nat :: s.criterion(f) != ReadError
    ensures FirstMatch(s, Order(s), s.Result(k))
  {
    hide Search.Visit, Search.Next, Search.Result, Search.Hit, Order, FirstMatch;
    EndsWithOrder(s, k);
    forall i: nat | i <= k
      ensures s.Visit(i) == Order(s)[i] && !s.NoFrame(Order(s)[i])
    {
      VisitsFollowOrder(s, i);
      OrderAt(s, i);
    }
    VisitsFollowOrder(s, k);
    HitOrBack(s, k);
    FirstMatchAt(s, Order(s), k);
  }

  /** Without a current frame and without wrapping: forward looks at every frame once, backward at none. */
  lemma {:induction false} FindsWithoutStart(s: Search, k: nat)
    requires s.start == 0 && !s.wrap && s.FirstEnd(k)
    requires forall i: nat :: !s.StopsAt(i)
    requires forall f: nat :: s.criterion(f) != ReadError
    ensures FirstMatch(s, if s.dir == Forward then Up(1, s.count) else [], s.Result(k))
  {
    if s.dir == Forward {
      var order := Up(1, s.count);
      VisitsUp(s, s.count);
      assert s.EndsAt(s.count) && k <= s.count;
      forall i: nat | i <= k ensures s.Visit(i) == if i < s.count then order[i] else 0 {
        VisitsUp(s, i);
      }
      FirstMatchAt(s, order, k);
    } else {
      assert s.EndsAt(0) && s.Visit(0) == 0;
      assert k == 0;
    }
  }

  /**
   Wrapping without a current frame, and neither a Stop nor a read error: if anything
   matches, the first match from the end the search comes from.
   */
  lemma {:induction false} FindsAround(s: Search, k: nat)
    requires s.start == 0 && s.count > 0 && s.wrap && s.FirstEnd(k)
    requires forall i: nat :: !s.StopsAt(i)
    requires forall f: nat :: s.criterion(f) != ReadError
    ensures s.Result(k) != 0 && FirstMatch(s, if s.dir.Forward? then Up(1, s.count) else Down(s.count, 1), s.Result(k))
  {
    var order := if s.dir.Forward? then Up(1, s.count) else Down(s.count, 1);
    VisitsWithoutStart(s, k);
    assert s.Hit(s.Visit(k));
    var f := s.Visit(k);
    var first := if s.dir.Forward? then f - 1 else s.count - f;
    VisitsWithoutStart(s, first);
    ModUnique(first, s.count, 0, first);
    assert s.EndsAt(first) && k <= first < s.count;
    forall i: nat | i <= k
      ensures s.Visit(i) == order[i]
    {
      VisitsWithoutStart(s, i);
      ModUnique(i, s.count, 0, i);
    }
    FirstMatchAt(s, order, k);
  }

  /** A frame of the table that is displayed and cannot be read. */
  predicate Unreadable(s: Search, f: nat) {
    1 <= f <= s.count && s.passed(f) && s.criterion(f) == ReadError
  }

  /**
   Pressing Stop and failing to read a displayed frame both lead back to the frame the search
   started from, if nothing displayed matched before, whatever the frames behind hold.
   */
  lemma {:induction false} GivesUp(s: Search, k: nat)
    requires forall i: nat | i < k :: !s.BackAtStart(s.Visit(i)) && (i < |s.stops| ==> !s.stops[i])
    requires forall i: nat | i < k && 1 <= s.Visit(i) <= s.count && s.passed(s.Visit(i)) :: s.criterion(s.Visit(i)) == NotMatched
    requires (k < |s.stops| && s.stops[k]) || Unreadable(s, s.Visit(k))
    ensures s.FirstEnd(k) && s.Result(k) == s.start
  {
    hide Search.Visit;
    forall i: nat | i < k
      ensures !s.EndsAt(i)
    {
      assert !s.BackAtStart(s.Visit(i));
    }
  }

  lemma VisitNext(s: Search, k: nat)
    ensures s.Visit(k) == s.Next(if k == 0 then s.start else s.Visit(k - 1))
  {
  }

  /** The capture_file fields find_packet writes. */
  class FindState {
    var currentFrame: nat
    var stopFlag: bool
    var searchPos: nat
    var searchLen: nat

    constructor (currentFrame: nat)
      ensures this.currentFrame == currentFrame && !stopFlag
    {
      this.currentFrame := currentFrame;
      stopFlag, searchPos, searchLen := false, 0, 0;
    }

    /**
     hasRow says for which frames the packet list has a row to select.
     A search that the user stops, or that hits a read error, goes back to the
     frame it started from and reports that as success.
     */
    method FindPacket(s: Search, hasRow: nat -> bool) returns (succeeded: bool, ghost end: nat)
      requires s.Valid() && s.start == currentFrame && s.CanEnd()
      modifies this
      ensures s.FirstEnd(end)
      ensures stopFlag <==> end < |s.stops| && s.stops[end]
      ensures succeeded <==> s.Result(end) != 0 && hasRow(s.Result(end))
      ensures currentFrame == if succeeded then s.Result(end) else old(currentFrame)
      ensures s.Result(end) != 0 ==> searchPos == searchLen == 0
      ensures s.Result(end) == 0 ==> searchPos == old(searchPos) && searchLen == old(searchLen)
    {
      ghost var last := EndOf(s);
      hide Search.CanEnd, Search.Visit, Search.Next;
      var newFrame := 0;
      var framenum := s.start;
      stopFlag := false;
      var k := 0;
      while true
        invariant framenum == if k == 0 then s.start else s.Visit(k - 1)
        invariant forall i: nat | i < k :: !s.EndsAt(i)
        invariant k <= last && newFrame == 0 && !stopFlag
        invariant currentFrame == old(currentFrame)
        invariant searchPos == old(searchPos) && searchLen == old(searchLen)
        decreases last - k
      {
        if s.StopsAt(k) {
          stopFlag := true;
          newFrame := s.start;
          break;
        }
        framenum := GoPast(s, framenum);
        VisitNext(s, k);
        assert framenum == s.Visit(k);
        if !s.NoFrame(framenum) && s.passed(framenum) {
          var r := s.criterion(framenum);
          if r == ReadError {
            newFrame := s.start;
            break;
          } else if r == Matched {
            newFrame := framenum;
            break;
          }
        }
        if s.BackAtStart(framenum) {
          break;
        }
        k := k + 1;
      }
      end := k;
      assert s.FirstEnd(end);
      succeeded := false;
      if newFrame != 0 {
        if hasRow(newFrame) {
          currentFrame := newFrame;
          succeeded := true;
        }
        searchPos, searchLen := 0, 0;
      }
    }

    /** "Go past the current frame." */
    method GoPast(s: Search, framenum: nat) returns (next: nat)
      ensures next == s.Next(framenum)
    {
      if s.dir == Backward {
        if framenum <= 1 {
          next := if s.wrap then s.count else s.start;
        } else {
          next := framenum - 1;
        }
      } else {
        if framenum == s.count {
          next := if s.wrap then 1 else s.start;
        } else {
          next := framenum + 1;
        }
      }
    }
  }
}
