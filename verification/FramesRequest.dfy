/**
 The frames request of sharkd (sharkd_session.c): a slice of the frames that pass a
 filter, each with the frame passing before it and the time reference it is shown against.
 */
module FramesRequest {
  import opened Basics
  import opened Intervals

  const G_MAXUINT32: nat := 0xFFFF_FFFF

  /** What one frame of the reply was dissected with. */
  datatype Row = Row(num: nat, ref: nat, prev: nat)

  function Min(a: nat, b: nat): nat {
    if a < b then a else b
  }

  /** take(limit, drop(skip, passing)), where a limit of zero is none. */
  function Slice(passing: seq<nat>, skip: nat, limit: nat): seq<nat> {
    var rest := passing[Min(skip, |passing|)..];
    if limit == 0 then rest else rest[..Min(limit, |rest|)]
  }

  /** How many references, from the first on, are not above the frame. */
  function Reached(refs: seq<nat>, framenum: nat): (k: nat)
    ensures k <= |refs|
    ensures forall i | 0 <= i < k :: refs[i] <= framenum
    ensures k < |refs| ==> framenum < refs[k]
  {
    if refs == [] || framenum < refs[0] then 0 else 1 + Reached(refs[1..], framenum)
  }

  /** The last of them; for none, and for a reference zero, the first frame of the file, which has none itself. */
  function Reference(refs: seq<nat>, framenum: nat): nat {
    var k := Reached(refs, framenum);
    if 0 < k && refs[k - 1] != 0 then refs[k - 1] else if framenum != 1 then 1 else 0
  }

  predicate Sorted(refs: seq<nat>) {
    forall i, j | 0 <= i <= j < |refs| :: refs[i] <= refs[j]
  }

  /** For references in order this is the greatest that is not above the frame. */
  lemma {:induction false} ReferenceIsGreatest(refs: seq<nat>, framenum: nat)
    requires Sorted(refs)
    ensures var r := Reference(refs, framenum);
            if exists i | 0 <= i < |refs| :: 0 < refs[i] <= framenum then
              r in refs && 0 < r <= framenum && forall i | 0 <= i < |refs| && refs[i] <= framenum :: refs[i] <= r
            else r == if framenum == 1 then 0 else 1
  {
    var k := Reached(refs, framenum);
    forall i | k <= i < |refs|
      ensures framenum < refs[i]
    {
      assert refs[k] <= refs[i];
    }
    forall i | 0 <= i < k
      ensures refs[i] <= refs[k - 1]
    {
    }
  }

  /** Where the walk along the references stands: those before k were reached. */
  datatype Cursor = Cursor(current: nat, next: nat, parsed: nat)

  predicate Stands(c: Cursor, refs: seq<nat>, k: nat) {
    k <= |refs| &&
    c.current == (if k == 0 then 0 else refs[k - 1]) &&
    c.next == (if k == |refs| then G_MAXUINT32 else refs[k]) &&
    c.parsed == Min(k + 1, |refs|)
  }

  predicate Follows(c: Cursor, refs: seq<nat>, k: nat, framenum: nat) {
    Stands(c, refs, k) && forall i | 0 <= i < k :: refs[i] <= framenum
  }

  lemma FollowsOn(c: Cursor, refs: seq<nat>, k: nat, framenum: nat)
    requires Follows(c, refs, k, framenum)
    ensures Follows(c, refs, k, framenum + 1)
  {
  }

  function RowOf(refs: seq<nat>, passing: seq<nat>, i: nat): Row
    requires i < |passing|
  {
    Row(passing[i], Reference(refs, passing[i]), if i == 0 then 0 else passing[i - 1])
  }

  /** The move of the cursor to a frame; parsed counts the references read from the request so far. */
  method Advance(refs: seq<nat>, framenum: nat, c: Cursor, ghost k: nat) returns (d: Cursor)
    requires Stands(c, refs, k) && 0 < |refs| && framenum < G_MAXUINT32
    requires forall i | 0 <= i < k :: refs[i] <= framenum
    ensures Stands(d, refs, Reached(refs, framenum))
  {
    var current, next, parsed := c.current, c.next, c.parsed;
    ghost var j := k;
    if framenum >= next {
      current := next;
      ghost var ended := parsed == |refs|;
      if parsed == |refs| {
        next := G_MAXUINT32;
      }
      while parsed < |refs| && framenum >= next
        invariant 0 < parsed <= |refs| && forall i | 0 <= i < parsed - 1 :: refs[i] <= framenum
        invariant if ended then parsed == |refs| && next == G_MAXUINT32 && current == refs[|refs| - 1] <= framenum
                  else next == refs[parsed - 1]
        invariant !ended ==> (1 < parsed && current == refs[parsed - 2]) || (framenum >= next && current == next)
      {
        current := next;
        next, parsed := refs[parsed], parsed + 1;
      }
      j := if ended || framenum >= next then parsed else parsed - 1;
      if parsed == |refs| && framenum >= next {
        current, next := next, G_MAXUINT32;
      }
    }
    d := Cursor(current, next, parsed);
    ReachedIs(refs, framenum, j);
  }

  lemma {:induction false} ReachedIs(refs: seq<nat>, framenum: nat, k: nat)
    requires k <= |refs| && (forall i | 0 <= i < k :: refs[i] <= framenum)
    requires k < |refs| ==> framenum < refs[k]
    ensures Reached(refs, framenum) == k
  {
    if 0 < k {
      ReachedIs(refs[1..], framenum, k - 1);
    }
  }

  /** The reference a shown frame gets, moving the cursor when the request names references. */
  method ReferenceAt(refs: seq<nat>, framenum: nat, c: Cursor, ghost k: nat) returns (ref: nat, d: Cursor)
    requires Follows(c, refs, k, framenum) && framenum < G_MAXUINT32
    ensures ref == Reference(refs, framenum)
    ensures Follows(d, refs, Reached(refs, framenum), framenum)
  {
    ref, d := if framenum != 1 then 1 else 0, c;
    if refs != [] {
      d := Advance(refs, framenum, c, k);
      if d.current != 0 {
        ref := d.current;
      }
    }
  }

  /** The rows are right for the passing frames seen so far, as far as skip lets them through. */
  predicate RowsFor(rows: seq<Row>, refs: seq<nat>, seen: seq<nat>, skip: nat) {
    |rows| == (if |seen| < skip then 0 else |seen| - skip) &&
    forall i | 0 <= i < |rows| :: rows[i] == RowOf(refs, seen, skip + i)
  }

  lemma NextRow(rows: seq<Row>, refs: seq<nat>, seen: seq<nat>, skip: nat, framenum: nat)
    requires RowsFor(rows, refs, seen, skip)
    ensures if |seen| < skip then RowsFor(rows, refs, seen + [framenum], skip)
            else
              var prev := if seen == [] then 0 else seen[|seen| - 1];
              RowsFor(rows + [Row(framenum, Reference(refs, framenum), prev)], refs, seen + [framenum], skip)
  {
    hide Reference;
  }

  lemma NextPassing(filter: Option<seq<byte>>, framenum: nat)
    requires 0 < framenum && Covers(filter, framenum)
    ensures Passing(filter, 0) == []
    ensures Passing(filter, framenum) ==
            Passing(filter, framenum - 1) + if Passes(filter, framenum) then [framenum] else []
  {
    hide Passes;
  }

  /** The reply to a request. */
  predicate Answers(rows: seq<Row>, refs: seq<nat>, passing: seq<nat>, skip: nat, limit: nat) {
    |rows| == |Slice(passing, skip, limit)| &&
    forall i | 0 <= i < |rows| ::
      rows[i] == RowOf(refs, passing, skip + i) && rows[i].num == Slice(passing, skip, limit)[i]
  }

  /** That is: past the skipped frames, up to the limit if there is one, each frame with the passing frame before it. */
  lemma {:induction false} AnswerShows(rows: seq<Row>, refs: seq<nat>, passing: seq<nat>, skip: nat, limit: nat)
    requires Answers(rows, refs, passing, skip, limit)
    ensures |rows| ==
            if |passing| <= skip then 0
            else if 0 < limit < |passing| - skip then limit
            else |passing| - skip
    ensures forall i | 0 <= i < |rows| ::
              && rows[i].num == passing[skip + i]
              && rows[i].prev == (if skip + i == 0 then 0 else passing[skip + i - 1])
              && rows[i].ref == Reference(refs, rows[i].num)
  {
    hide Reference;
  }

  lemma RowsAnswer(rows: seq<Row>, refs: seq<nat>, seen: seq<nat>, passing: seq<nat>, skip: nat, limit: nat)
    requires RowsFor(rows, refs, seen, skip) && seen <= passing
    requires if seen == passing then limit == 0 || |rows| <= limit else 0 < limit == |rows|
    ensures Answers(rows, refs, passing, skip, limit)
  {
    hide Reference;
  }

  /**
   The loop of sharkd_session_process_frames. The cursor moves only at frames that are
   shown, yet every row has the reference it would have if it had moved at every frame.
   */
  method ProcessFrames(count: nat, filter: Option<seq<byte>>, skip: nat, limit: nat, refs: seq<nat>)
    returns (rows: seq<Row>)
    requires Covers(filter, count) && count < G_MAXUINT32
    ensures Answers(rows, refs, Passing(filter, count), skip, limit)
  {
    hide Passes, Passing, Reached, Reference, RowsFor, RowOf, Answers, Slice, Follows, Stands, Min, Counts, Covers;
    var skipped, limited, prev, framenum := skip, limit, 0, 1;
    var cursor := if refs == [] then Cursor(0, G_MAXUINT32, 0) else Cursor(0, refs[0], 1);
    ghost var k, seen: seq<nat> := 0, [];
    rows := [];
    Start(cursor, refs, skip, limit);
    CoversUpTo(filter, 0, count);
    while framenum <= count
      invariant 1 <= framenum <= count + 1
      invariant Covers(filter, framenum - 1) && seen == Passing(filter, framenum - 1) && RowsFor(rows, refs, seen, skip)
      invariant prev == if seen == [] then 0 else seen[|seen| - 1]
      invariant Counts(|rows|, |seen|, skip, limit, skipped, limited)
      invariant Follows(cursor, refs, k, framenum - 1)
    {
      FollowsOn(cursor, refs, k, framenum - 1);
      CoversUpTo(filter, framenum, count);
      NextPassing(filter, framenum);
      if Passes(filter, framenum) {
        NextRow(rows, refs, seen, skip, framenum);
        NextCounts(|rows|, |seen|, skip, limit, skipped, limited);
        seen := seen + [framenum];
        if skipped > 0 {
          skipped := skipped - 1;
        } else {
          var ref;
          ref, cursor := ReferenceAt(refs, framenum, cursor, k);
          k := Reached(refs, framenum);
          rows := rows + [Row(framenum, ref, prev)];
          if limited > 0 {
            limited := limited - 1;
            if limited == 0 {
              RestNotShown(filter, framenum, count);
              RowsAnswer(rows, refs, seen, Passing(filter, count), skip, limit);
              return;
            }
          }
        }
        prev := framenum;
      }
      framenum := framenum + 1;
    }
    NextCounts(|rows|, |seen|, skip, limit, skipped, limited);
    RowsAnswer(rows, refs, seen, seen, skip, limit);
  }

  /** Where the counters of the request stand after m passing frames, of which n are shown. */
  predicate Counts(n: nat, m: nat, skip: nat, limit: nat, skipped: nat, limited: nat) {
    && skipped == (if m < skip then skip - m else 0)
    && n == (if m < skip then 0 else m - skip)
    && (limit == 0 == limited || (n < limit && limited == limit - n))
  }

  lemma NextCounts(n: nat, m: nat, skip: nat, limit: nat, skipped: nat, limited: nat)
    requires Counts(n, m, skip, limit, skipped, limited)
    ensures (skipped > 0 <==> m < skip) && (limit == 0 || n <= limit)
    ensures skipped > 0 ==> Counts(n, m + 1, skip, limit, skipped - 1, limited)
    ensures skipped == 0 ==>
              if limited == 0 then Counts(n + 1, m + 1, skip, limit, 0, 0)
              else if limited == 1 then 0 < limit == n + 1
              else Counts(n + 1, m + 1, skip, limit, 0, limited - 1)
  {
  }

  lemma Start(c: Cursor, refs: seq<nat>, skip: nat, limit: nat)
    requires c == if refs == [] then Cursor(0, G_MAXUINT32, 0) else Cursor(0, refs[0], 1)
    ensures RowsFor([], refs, [], skip) && Follows(c, refs, 0, 0) && Counts(0, 0, skip, limit, skip, limit)
    ensures forall filter: Option<seq<byte>> | Covers(filter, 0) :: Passing(filter, 0) == []
  {
  }

  lemma CoversUpTo(filter: Option<seq<byte>>, framenum: nat, count: nat)
    requires Covers(filter, count) && framenum <= count
    ensures Covers(filter, framenum)
  {
  }

  lemma {:induction false} RestNotShown(filter: Option<seq<byte>>, framenum: nat, count: nat)
    requires Covers(filter, count) && framenum <= count
    ensures Covers(filter, framenum) && Passing(filter, framenum) <= Passing(filter, count)
    decreases count - framenum
  {
    if framenum < count {
      RestNotShown(filter, framenum, count - 1);
    }
  }

  /** Two pages asked for one after the other show the rows of one long page, references and previous frames included. */
  lemma {:induction false} PagesJoin(first: seq<Row>, second: seq<Row>, refs: seq<nat>, passing: seq<nat>, skip: nat, l: nat, m: nat)
    requires 0 < l
    requires Answers(first, refs, passing, skip, l) && Answers(second, refs, passing, skip + l, m)
    ensures Answers(first + second, refs, passing, skip, if m == 0 then 0 else l + m)
  {
    hide Reference, RowOf;
    var s, t := Slice(passing, skip, l), Slice(passing, skip + l, m);
    SlicesJoin(passing, skip, l, m);
    forall i | 0 <= i < |first + second|
      ensures (first + second)[i] == RowOf(refs, passing, skip + i) && (first + second)[i].num == (s + t)[i]
    {
    }
  }

  lemma SlicesJoin(passing: seq<nat>, skip: nat, l: nat, m: nat)
    requires 0 < l
    ensures Slice(passing, skip, l) + Slice(passing, skip + l, m) == Slice(passing, skip, if m == 0 then 0 else l + m)
    ensures Slice(passing, skip + l, m) != [] ==> |Slice(passing, skip, l)| == l
    ensures |passing| < skip + |Slice(passing, skip, l)| ==> Slice(passing, skip, l) == []
  {
  }
}
