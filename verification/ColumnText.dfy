/**
 What the column operations of column-utils.c mean: the text of one packet-list column
 and its fence, the length of the part no later operation may change. How a column stores
 its text is not visible here; Columns.dfy has that, proved against this.
 */
module ColumnText {
  import opened Basics

  datatype View = View(text: string, fence: nat)

  /** Strings come from C and hold no terminator; an absent separator or list element is None. */
  datatype Op =
    | SetFence
    | ClearFence
    | Clear
    | Add(str: string)                                      // col_add_str, col_add_fstr
    | Set(str: string)                                      // col_set_str
    | AddList(parts: seq<Option<string>>)                   // col_add_lstr
    | Append(separator: Option<string>, str: string)        // col_append_str, col_append_sep_str
    | AppendFormat(separator: Option<string>, str: string)  // col_append_fstr, col_append_sep_fstr
    | AppendList(parts: seq<Option<string>>)                // col_append_lstr
    | Prepend(str: string)                                  // col_prepend_fstr
    | PrependFence(str: string)                             // col_prepend_fence_fstr

  function Cut(s: string, n: nat): (r: string)
    ensures |r| <= n && |r| <= |s| && r == s[..|r|] && (|s| <= n ==> r == s)
  {
    if |s| <= n then s else s[..n]
  }

  function Element(part: Option<string>): string {
    match part case None => "(null)" case Some(s) => s
  }

  function Joined(parts: seq<Option<string>>): string {
    if parts == [] then "" else Element(parts[0]) + Joined(parts[1..])
  }

  function Separated(separator: Option<string>, text: string): string {
    if separator.Some? && text != "" then separator.value else ""
  }

  /** The text up to the fence, then the new text, as much as a buffer of max bytes takes. */
  function Written(v: View, str: string, max: nat): View
    requires v.fence <= |v.text| && 0 < max
  {
    v.(text := Cut(v.text[..v.fence] + str, max - 1))
  }

  function Extended(v: View, str: string, max: nat): View
    requires 0 < max
  {
    v.(text := Cut(v.text + str, max - 1))
  }

  function Step(v: View, op: Op, max: nat): View
    requires v.fence <= |v.text| && 0 < max
  {
    match op
    case SetFence => v.(fence := |v.text|)
    case ClearFence => v.(fence := 0)
    case Clear => v.(text := v.text[..v.fence])
    case Add(str) => Written(v, str, max)
    case Set(str) => if v.fence == 0 then View(str, 0) else Written(v, str, max)
    case AddList(parts) => Written(v, Joined(parts), max)
    case Append(separator, str) => Extended(v, Separated(separator, v.text) + str, max)
    case AppendFormat(separator, str) => Extended(v, Separated(separator, v.text) + str, max)
    case AppendList(parts) => Extended(v, Joined(parts), max)
    case Prepend(str) =>
      View(Cut(str + v.text, max - 1), if v.fence > 0 then v.fence + |Cut(str, max - 1)| else 0)
    case PrependFence(str) =>
      View(Cut(str + v.text, max - 1), v.fence + |Cut(str, max - 1)|)
  }

  /** What is left of a text in a buffer of max bytes: all of it, or its first max - 1 characters. */
  predicate Holds(shown: string, text: string, max: nat) {
    if |text| < max then shown == text else |shown| == max - 1 && shown <= text
  }

  /** The parts one after the other, where an absent one reads "(null)". */
  predicate InARow(text: string, parts: seq<Option<string>>)
    decreases |parts|
  {
    if parts == [] then text == ""
    else
      var first := if parts[0] == None then "(null)" else parts[0].value;
      first <= text && InARow(text[|first|..], parts[1..])
  }

  lemma {:induction false} JoinedInARow(parts: seq<Option<string>>)
    ensures InARow(Joined(parts), parts)
  {
    if parts != [] {
      JoinedInARow(parts[1..]);
      assert Joined(parts)[|Element(parts[0])|..] == Joined(parts[1..]);
    }
  }

  /** Both say which text it is. */
  lemma {:induction false} OneText(a: string, b: string, text: string, parts: seq<Option<string>>, max: nat)
    ensures 0 < max && Holds(a, text, max) && Holds(b, text, max) ==> a == b
    ensures InARow(a, parts) && InARow(b, parts) ==> a == b
    decreases |parts|
  {
    if parts != [] && InARow(a, parts) && InARow(b, parts) {
      var first := if parts[0] == None then "(null)" else parts[0].value;
      OneText(a[|first|..], b[|first|..], text, parts[1..], max);
      assert a == first + a[|first|..] && b == first + b[|first|..];
    }
  }

  /** The text each operation leaves, and where it puts the fence. */
  lemma {:induction false} StepShows(v: View, op: Op, max: nat)
    requires v.fence <= |v.text| && 0 < max
    ensures var shown := Step(v, op, max).text;
            match op
            case SetFence => shown == v.text
            case ClearFence => shown == v.text
            case Clear => |shown| == v.fence && shown <= v.text
            case Add(str) => Holds(shown, v.text[..v.fence] + str, max)
            case Set(str) => if v.fence == 0 then shown == str else Holds(shown, v.text[..v.fence] + str, max)
            case AddList(parts) => exists all :: InARow(all, parts) && Holds(shown, v.text[..v.fence] + all, max)
            case Append(sep, str) =>
              Holds(shown, if v.text == "" || sep.None? then v.text + str else v.text + sep.value + str, max)
            case AppendFormat(sep, str) =>
              Holds(shown, if v.text == "" || sep.None? then v.text + str else v.text + sep.value + str, max)
            case AppendList(parts) => exists all :: InARow(all, parts) && Holds(shown, v.text + all, max)
            case Prepend(str) => Holds(shown, str + v.text, max)
            case PrependFence(str) => Holds(shown, str + v.text, max)
    ensures var moved := Step(v, op, max).fence;
            match op
            case SetFence => moved == |v.text|
            case ClearFence => moved == 0
            case Prepend(str) => moved == if v.fence == 0 then 0 else if |str| < max then v.fence + |str| else v.fence + max - 1
            case PrependFence(str) => moved == if |str| < max then v.fence + |str| else v.fence + max - 1
            case _ => moved == v.fence
  {
    hide Joined, InARow;
    match op
    case AddList(parts) => JoinedInARow(parts);
    case AppendList(parts) => JoinedInARow(parts);
    case Append(sep, str) => Grouped(v.text, sep, str);
    case AppendFormat(sep, str) => Grouped(v.text, sep, str);
    case _ =>
  }

  lemma Grouped(text: string, sep: Option<string>, str: string)
    ensures sep.Some? ==> text + sep.value + str == text + (sep.value + str)
    ensures "" + str == str
  {
  }

  /** Strings with a separator between them. */
  function WithSeparator(sep: string, strs: seq<string>): string {
    if strs == [] then "" else if |strs| == 1 then strs[0] else strs[0] + sep + WithSeparator(sep, strs[1..])
  }

  function Appends(sep: string, strs: seq<string>): seq<Op> {
    seq(|strs|, i requires 0 <= i < |strs| => Append(Some(sep), strs[i]))
  }

  /** The fence lies in the text, and a fenced text fits the buffer. */
  predicate Fenced(v: View, max: nat) {
    v.fence <= |v.text| && (v.fence > 0 ==> |v.text| < max)
  }

  /** What a caller must see to: a string set by reference and then fenced, or put before fenced text, is short enough. */
  predicate Fits(v: View, op: Op, max: nat) {
    match op
    case SetFence => |v.text| < max
    case Prepend(str) => v.fence == 0 || v.fence + |str| < max
    case PrependFence(str) => v.fence == 0 || v.fence + |str| < max
    case _ => true
  }

  /** No other condition is needed, and none weaker is enough. */
  lemma {:induction false} FenceKeptExactly(v: View, op: Op, max: nat)
    requires Fenced(v, max) && 0 < max
    ensures Fenced(Step(v, op, max), max) <==> Fits(v, op, max)
  {
  }

  predicate Prepends(op: Op) {
    op.Prepend? || op.PrependFence?
  }

  /** Every operation but those on the fence itself and the prepending ones keeps fence and text before it. */
  lemma {:induction false} TextBeforeFenceKept(v: View, op: Op, max: nat)
    requires Fenced(v, max) && 0 < max && !(op.SetFence? || op.ClearFence? || op.Prepend? || op.PrependFence?)
    ensures var w := Step(v, op, max); w.fence == v.fence <= |w.text| && w.text[..w.fence] == v.text[..v.fence]
  {
  }

  /** What precedes fenced text after a run: every prepended string, the last one first. */
  function Before(ops: seq<Op>): string {
    if ops == [] then ""
    else Before(ops[1..]) + if Prepends(ops[0]) then ops[0].str else ""
  }

  function Run(v: View, ops: seq<Op>, max: nat): Option<View>
    requires Fenced(v, max) && 0 < max
    ensures Run(v, ops, max).Some? ==> Fenced(Run(v, ops, max).value, max)
    decreases |ops|
  {
    if ops == [] then Some(v)
    else if !Fits(v, ops[0], max) then None
    else Run(Step(v, ops[0], max), ops[1..], max)
  }

  /**
   Over any run that stays within the buffer and does not clear the fence, text once fenced
   stays, whole and in place behind everything prepended since.
   */
  lemma {:induction false} FencedTextSurvives(v: View, ops: seq<Op>, max: nat)
    requires Fenced(v, max) && 0 < max && 0 < v.fence
    requires ClearFence !in ops
    requires Run(v, ops, max).Some?
    ensures var w := Run(v, ops, max).value;
            w.fence <= |w.text| && Before(ops) + v.text[..v.fence] <= w.text[..w.fence]
    decreases |ops|
  {
    hide Step, Fits;
    if ops == [] {
      assert Before(ops) + v.text[..v.fence] == v.text[..v.fence];
    } else {
      var u, w := Step(v, ops[0], max), Run(v, ops, max).value;
      OneStepBehind(v, ops[0], max);
      FencedTextSurvives(u, ops[1..], max);
      var added := if Prepends(ops[0]) then ops[0].str else "";
      Regroup(Before(ops[1..]), added, v.text[..v.fence]);
      PrefixUnder(Before(ops[1..]), added + v.text[..v.fence], u.text[..u.fence], w.text[..w.fence]);
    }
  }

  /**
   Appending one string after the other with a separator, to an empty column, puts the separator
   between them and nowhere else, if none of them is empty and they fit.
   */
  lemma {:induction false} AppendsSeparate(v: View, sep: string, strs: seq<string>, max: nat)
    requires Fenced(v, max) && |v.text| < max && (strs != [] ==> |v.text| + |sep| + |WithSeparator(sep, strs)| < max)
    requires forall i | 0 <= i < |strs| :: strs[i] != ""
    ensures var r := Run(v, Appends(sep, strs), max);
            && r.Some? && r.value.fence == v.fence
            && r.value.text ==
               if strs == [] then v.text
               else if v.text == "" then WithSeparator(sep, strs) else v.text + sep + WithSeparator(sep, strs)
    decreases |strs|
  {
    hide Step, WithSeparator;
    if strs != [] {
      OneAppended(v, sep, strs, max);
      assert Appends(sep, strs)[1..] == Appends(sep, strs[1..]);
      AppendsSeparate(Step(v, Append(Some(sep), strs[0]), max), sep, strs[1..], max);
    }
  }

  lemma OneAppended(v: View, sep: string, strs: seq<string>, max: nat)
    requires Fenced(v, max) && strs != [] && |v.text| + |sep| + |WithSeparator(sep, strs)| < max && strs[0] != ""
    ensures var u := Step(v, Append(Some(sep), strs[0]), max);
            && u == v.(text := if v.text == "" then strs[0] else v.text + sep + strs[0])
            && Fenced(u, max) && Fits(v, Append(Some(sep), strs[0]), max)
            && (|strs| > 1 ==>
                  && |u.text| + |sep| + |WithSeparator(sep, strs[1..])| < max
                  && u.text + sep + WithSeparator(sep, strs[1..]) ==
                     if v.text == "" then WithSeparator(sep, strs) else v.text + sep + WithSeparator(sep, strs))
            && (|strs| == 1 ==> WithSeparator(sep, strs) == strs[0] && strs[1..] == [])
  {
    Regroup(v.text, sep, strs[0]);
    var rest := sep + WithSeparator(sep, strs[1..]);
    Regroup(strs[0], sep, WithSeparator(sep, strs[1..]));
    Regroup(v.text + sep, strs[0], rest);
    Regroup(v.text + sep + strs[0], sep, WithSeparator(sep, strs[1..]));
  }

  lemma Regroup(a: string, b: string, c: string)
    ensures a + b + c == a + (b + c)
  {
  }

  lemma OneStepBehind(v: View, op: Op, max: nat)
    requires Fenced(v, max) && 0 < max && 0 < v.fence
    requires op != ClearFence && Fits(v, op, max)
    ensures var u := Step(v, op, max);
            0 < u.fence && Fenced(u, max) &&
            (if Prepends(op) then op.str else "") + v.text[..v.fence] <= u.text[..u.fence]
  {
  }

  lemma PrefixUnder(head: string, a: string, b: string, whole: string)
    requires a <= b && head + b <= whole
    ensures head + a <= whole
  {
    assert whole[..|head| + |b|] == head + b;
    assert whole[..|head| + |a|] == head + a;
  }

  /** Without a fence a long string may be shown by reference; every copied text fits its buffer. */
  lemma {:induction false} CopiedTextFits(v: View, op: Op, max: nat)
    requires Fenced(v, max) && 0 < max && (op.Set? ==> 0 < v.fence)
    requires |v.text| < max || !(op.SetFence? || op.ClearFence? || op.Clear?)
    ensures |Step(v, op, max).text| < max
  {
  }

  /** One prepend too long loses fenced text: the fence then lies past the end. */
  lemma {:induction false} OverlongPrepend(v: View, str: string, max: nat)
    requires Fenced(v, max) && 0 < v.fence && max <= v.fence + |str| && |str| < max
    ensures var w := Step(v, Prepend(str), max);
            |w.text| < w.fence && w.text == Cut(str + v.text[..v.fence], max - 1)
  {
    assert (str + v.text)[..max - 1] == (str + v.text[..v.fence])[..max - 1];
  }
}
