/**
 The columns of one packet-list row together (column_info in column-utils.c). An operation
 names a format and works on every column that shows it.
 */
module ColumnInfos {
  import opened Basics
  import opened ColumnText
  import opened Columns

  /** The first and the last of the first n columns that show a format, -1 if there is none. */
  predicate Bounds(formats: seq<nat>, el: nat, n: nat, first: int, last: int)
    requires n <= |formats|
  {
    if first < 0 then
      first == -1 && forall i | 0 <= i < n :: el !in FormatMatches(formats[i])
    else
      first <= last < n && el in FormatMatches(formats[first]) && el in FormatMatches(formats[last]) &&
      forall i | 0 <= i < n && el in FormatMatches(formats[i]) :: first <= i <= last
  }

  /** col_finalize: the ranges of columns that show each format. */
  method Ranges(formats: seq<nat>) returns (first: seq<int>, last: seq<int>)
    ensures |first| == |last| == NUM_COL_FMTS
    ensures forall el: nat | el < NUM_COL_FMTS :: Bounds(formats, el, |formats|, first[el], last[el])
  {
    hide Columns.FormatMatches;
    first, last := seq(NUM_COL_FMTS, _ => -1), seq(NUM_COL_FMTS, _ => -1);
    for i := 0 to |formats|
      invariant |first| == |last| == NUM_COL_FMTS
      invariant forall el: nat | el < NUM_COL_FMTS :: Bounds(formats, el, i, first[el], last[el])
    {
      for j := 0 to NUM_COL_FMTS
        invariant |first| == |last| == NUM_COL_FMTS
        invariant forall el: nat | el < NUM_COL_FMTS ::
          Bounds(formats, el, if el < j then i + 1 else i, first[el], last[el])
      {
        if j in FormatMatches(formats[i]) {
          if first[j] == -1 {
            first := first[j := i];
          }
          last := last[j := i];
        }
      }
    }
  }

  class ColumnInfo {
    const columns: seq<Column>
    const colFirst: seq<int>
    const colLast: seq<int>
    var writable: bool

    /** A row as col_finalize lays it out, with the columns as col_init leaves them. */
    constructor (formats: seq<nat>)
      ensures Valid() && writable && fresh(Objects()) && |columns| == |formats|
      ensures forall i | 0 <= i < |formats| ::
        columns[i].format == formats[i] && columns[i].Shown() == View("", 0) && columns[i].writable
    {
      hide Columns.FormatMatches, Column.WellStored, Fenced;
      var cols: seq<Column> := [];
      while |cols| < |formats|
        invariant |cols| <= |formats|
        invariant forall k | 0 <= k < |cols| :: fresh(cols[k]) && fresh(cols[k].buf)
        invariant forall k | 0 <= k < |cols| ::
          cols[k].Valid() && cols[k].format == formats[k] && cols[k].Shown() == View("", 0) && cols[k].writable
        invariant forall j, k | 0 <= j < k < |cols| :: cols[j] != cols[k] && cols[j].buf != cols[k].buf
      {
        var c := new Column(formats[|cols|]);
        cols := cols + [c];
      }
      var first, last := Ranges(formats);
      columns, colFirst, colLast, writable := cols, first, last, true;
      new;
      forall el: nat | el < NUM_COL_FMTS
        ensures Ranged(el)
      {
        assert Bounds(formats, el, |formats|, first[el], last[el]);
      }
    }

    /** fmt_matx */
    predicate Matches(i: nat, el: nat)
      requires i < |columns|
    {
      el in FormatMatches(columns[i].format)
    }

    /** colFirst and colLast bound the columns that show a format, and are -1 and unused without one. */
    ghost predicate Ranged(el: nat)
      requires |colFirst| == |colLast| == NUM_COL_FMTS && el < NUM_COL_FMTS
    {
      if colFirst[el] < 0 then
        colFirst[el] == -1 && forall i: nat | i < |columns| :: !Matches(i, el)
      else
        colFirst[el] <= colLast[el] < |columns| && Matches(colFirst[el], el) && Matches(colLast[el], el) &&
        forall i: nat | i < |columns| && Matches(i, el) :: colFirst[el] <= i <= colLast[el]
    }

    ghost predicate Laid()
    {
      |colFirst| == |colLast| == NUM_COL_FMTS &&
      (forall el: nat | el < NUM_COL_FMTS :: Ranged(el)) &&
      (forall el: nat | el < NUM_COL_FMTS && 0 <= colFirst[el] :: colFirst[el] <= colLast[el] < |columns|) &&
      (forall i, j | 0 <= i < j < |columns| :: columns[i] != columns[j] && columns[i].buf != columns[j].buf)
    }

    ghost function Objects(): set<object> {
      (set c: Column | c in columns :: c as object) + (set c: Column | c in columns :: c.buf as object)
    }

    ghost predicate Valid()
      reads Objects()
    {
      Laid() && forall i | 0 <= i < |columns| :: columns[i].Valid()
    }

    /** Every column has the buffer its format needs. */
    ghost predicate Sized()
      reads Objects()
    {
      Laid() && forall i | 0 <= i < |columns| :: columns[i].buf.Length == MaxLen(columns[i].format)
    }

    /** col_get_writable for a format: all columns are, and the first that shows the format is. */
    ghost predicate Writable(el: nat)
      requires Laid() && el < NUM_COL_FMTS
      reads this, columns
    {
      writable && 0 <= colFirst[el] && columns[colFirst[el]].writable
    }

    /** Column i is the first that shows the format. */
    predicate IsFirst(i: nat, el: nat)
      requires i < |columns|
    {
      Matches(i, el) && forall j: nat | j < i :: !Matches(j, el)
    }

    lemma {:induction false} WritableMeans(el: nat)
      requires Laid() && el < NUM_COL_FMTS
      ensures Writable(el) <==> writable && exists i: nat | i < |columns| :: IsFirst(i, el) && columns[i].writable
    {
      assert Ranged(el);
      if 0 <= colFirst[el] {
        assert IsFirst(colFirst[el], el);
      }
    }

    /** col_init */
    method Init()
      requires Sized()
      modifies this, Objects()
      ensures Valid() && writable
      ensures forall i | 0 <= i < |columns| :: columns[i].Shown() == View("", 0) && columns[i].writable
    {
      var i := 0;
      while i < |columns|
        invariant 0 <= i <= |columns| && Sized()
        invariant forall k | 0 <= k < i ::
          columns[k].Valid() && columns[k].Shown() == View("", 0) && columns[k].writable
      {
        columns[i].Reset();
        i := i + 1;
      }
      writable := true;
    }

    lemma FirstShows(el: nat)
      requires Laid() && el < NUM_COL_FMTS && 0 <= colFirst[el]
      ensures Matches(colFirst[el], el)
    {
      assert Ranged(el);
    }

    method GetWritable(col: int) returns (r: bool)
      requires Laid() && -1 <= col < NUM_COL_FMTS
      ensures col == -1 ==> r == writable
      ensures 0 <= col ==>
        (r <==> writable && exists i: nat | i < |columns| :: IsFirst(i, col) && columns[i].writable)
    {
      if 0 <= col {
        WritableMeans(col);
      }
      if col == -1 || !writable {
        return writable;
      }
      if colFirst[col] >= 0 {
        var i := colFirst[col];
        while i <= colLast[col]
          invariant colFirst[col] <= i
          invariant forall k: nat | colFirst[col] <= k < i :: k < |columns| && !Matches(k, col)
        {
          if Matches(i, col) {
            FirstShows(col);
            return columns[i].writable;
          }
          i := i + 1;
        }
        FirstShows(col);
      }
      return false;
    }

    method SetWritable(col: int, on: bool)
      requires Valid() && -1 <= col < NUM_COL_FMTS
      modifies this, columns
      ensures Valid() && writable == if col == -1 then on else old(writable)
      ensures forall i | 0 <= i < |columns| :: columns[i].Shown() == old(columns[i].Shown())
      ensures forall i | 0 <= i < |columns| ::
        columns[i].writable == if 0 <= col && Matches(i, col) then on else old(columns[i].writable)
    {
      hide Columns.FormatMatches, Column.Valid, Column.Shown;
      if col == -1 {
        writable := on;
        return;
      }
      assert Ranged(col);
      if colFirst[col] >= 0 {
        var i := colFirst[col];
        while i <= colLast[col]
          invariant colFirst[col] <= i <= colLast[col] + 1
          invariant Valid() && writable == old(writable)
          invariant forall k | 0 <= k < |columns| :: columns[k].Shown() == old(columns[k].Shown())
          invariant forall k | 0 <= k < |columns| ::
            columns[k].writable == if k < i && Matches(k, col) then on else old(columns[k].writable)
        {
          if Matches(i, col) {
            columns[i].writable := on;
          }
          i := i + 1;
        }
      }
    }

    /** col_get_text: the text of the last column that shows the format. */
    method GetText(el: nat) returns (text: Option<string>)
      requires Valid() && el < NUM_COL_FMTS
      ensures text == if colFirst[el] < 0 then None else Some(columns[colLast[el]].Text())
    {
      assert Ranged(el);
      text := None;
      if colFirst[el] < 0 {
        return;
      }
      var i := colFirst[el];
      while i <= colLast[el]
        invariant colFirst[el] <= i <= colLast[el] + 1
        invariant i == colLast[el] + 1 ==> text == Some(columns[colLast[el]].Text())
      {
        if Matches(i, el) {
          text := Some(if columns[i].data.Some? then columns[i].data.value else CString(columns[i].buf[..]));
        }
        i := i + 1;
      }
    }

    lemma BuffersFit(el: nat)
      requires Valid()
      ensures forall i: nat | i < |columns| && Matches(i, el) ::
        columns[i].buf.Length == MaxLen(el) && Fenced(columns[i].Shown(), MaxLen(el))
    {
      forall i: nat | i < |columns| && Matches(i, el)
        ensures columns[i].buf.Length == MaxLen(el)
      {
        BufferSizeAgrees(columns[i].format, el);
      }
    }

    /**
     What the operations share: they check that the format is shown and writable, then
     work on each column that shows it. Exactly those columns change, each as Step says.
     */
    method Update(el: nat, op: Op)
      requires Valid() && CStrings(op) && el < NUM_COL_FMTS
      modifies Objects()
      ensures Laid()
      ensures forall i | 0 <= i < |columns| ::
        columns[i].Shown() ==
          if old(Writable(el)) && Matches(i, el) then Step(old(columns[i].Shown()), op, MaxLen(el))
          else old(columns[i].Shown())
      ensures forall i | 0 <= i < |columns| :: columns[i].writable == old(columns[i].writable)
      ensures Valid() <==> forall i | 0 <= i < |columns| ::
        old(Writable(el)) && Matches(i, el) ==> old(Fits(columns[i].Shown(), op, MaxLen(el)))
    {
      hide Columns.FormatMatches, Column.WellStored, Column.Shown, Step, Fits, CStrings;
      BuffersFit(el);
      WritableMeans(el);
      var checked := GetWritable(el);
      if !checked {
        return;
      }
      UpdateEach(el, op);
      forall k | 0 <= k < |columns|
        ensures columns[k].Valid() <==> (Matches(k, el) ==> old(Fits(columns[k].Shown(), op, MaxLen(el))))
      {
        if Matches(k, el) {
          FenceKeptExactly(old(columns[k].Shown()), op, MaxLen(el));
        }
      }
    }

    /** The loop over the columns. */
    method UpdateEach(el: nat, op: Op)
      requires Valid() && CStrings(op) && el < NUM_COL_FMTS && 0 <= colFirst[el]
      modifies Objects()
      ensures Laid() && forall i | 0 <= i < |columns| :: columns[i].WellStored()
      ensures forall i: nat | i < |columns| && Matches(i, el) ::
        old(Fenced(columns[i].Shown(), MaxLen(el))) && columns[i].buf.Length == MaxLen(el)
      ensures forall i | 0 <= i < |columns| ::
        columns[i].Shown() ==
          if Matches(i, el) then Step(old(columns[i].Shown()), op, MaxLen(el)) else old(columns[i].Shown())
      ensures forall i | 0 <= i < |columns| :: columns[i].writable == old(columns[i].writable)
    {
      hide Columns.FormatMatches, Column.WellStored, Column.Shown, Step, Fits, CStrings;
      BuffersFit(el);
      assert Ranged(el);
      var i := colFirst[el];
      while i <= colLast[el]
        invariant colFirst[el] <= i <= colLast[el] + 1
        invariant forall k | 0 <= k < |columns| :: columns[k].WellStored()
        invariant forall k | 0 <= k < |columns| ::
          columns[k].Shown() ==
            if k < i && Matches(k, el) then Step(old(columns[k].Shown()), op, MaxLen(el))
            else old(columns[k].Shown())
        invariant forall k | 0 <= k < |columns| :: columns[k].writable == old(columns[k].writable)
      {
        if Matches(i, el) {
          assert columns[i] in columns;
          columns[i].Apply(op);
        }
        i := i + 1;
      }
    }
  }
}
