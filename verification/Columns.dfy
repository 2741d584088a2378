/**
 The columns of a packet-list row (column-utils.c): each shows either a constant string
 it was given by reference or its own NUL-terminated buffer, and each operation works on
 the columns of one format. Proved against the plain texts and fences of ColumnText.
 */
module Columns {
  import opened Basics
  import opened ColumnText

  const COL_MAX_LEN: nat := 256
  const COL_MAX_INFO_LEN: nat := 4096
  const NUM_COL_FMTS: nat := 50

  // Formats, numbered as in column-utils.h; only those named below matter here.
  const COL_RES_DST: nat := 10
  const COL_UNRES_DST: nat := 11
  const COL_RES_DST_PORT: nat := 12
  const COL_DEF_DST: nat := 14
  const COL_DEF_DST_PORT: nat := 15
  const COL_DEF_DL_DST: nat := 19
  const COL_DEF_DL_SRC: nat := 20
  const COL_RES_DL_DST: nat := 21
  const COL_UNRES_DL_DST: nat := 22
  const COL_RES_DL_SRC: nat := 23
  const COL_UNRES_DL_SRC: nat := 24
  const COL_INFO: nat := 28
  const COL_RES_NET_DST: nat := 29
  const COL_UNRES_NET_DST: nat := 30
  const COL_RES_NET_SRC: nat := 31
  const COL_UNRES_NET_SRC: nat := 32
  const COL_DEF_NET_DST: nat := 33
  const COL_DEF_NET_SRC: nat := 34
  const COL_DEF_SRC: nat := 39
  const COL_DEF_SRC_PORT: nat := 40
  const COL_RES_SRC: nat := 41
  const COL_UNRES_SRC: nat := 42
  const COL_RES_SRC_PORT: nat := 43

  /** get_column_format_matches (column.c): the formats a column of the given format shows. */
  function FormatMatches(format: nat): set<nat> {
    {format} +
    if format == COL_DEF_SRC || format == COL_RES_SRC then {COL_RES_DL_SRC, COL_RES_NET_SRC}
    else if format == COL_UNRES_SRC then {COL_UNRES_DL_SRC, COL_UNRES_NET_SRC}
    else if format == COL_DEF_DST || format == COL_RES_DST then {COL_RES_DL_DST, COL_RES_NET_DST}
    else if format == COL_UNRES_DST then {COL_UNRES_DL_DST, COL_UNRES_NET_DST}
    else if format == COL_DEF_DL_SRC then {COL_RES_DL_SRC}
    else if format == COL_DEF_DL_DST then {COL_RES_DL_DST}
    else if format == COL_DEF_NET_SRC then {COL_RES_NET_SRC}
    else if format == COL_DEF_NET_DST then {COL_RES_NET_DST}
    else if format == COL_DEF_SRC_PORT then {COL_RES_SRC_PORT}
    else if format == COL_DEF_DST_PORT then {COL_RES_DST_PORT}
    else {}
  }

  /** The same table by what is shown: the formats of the columns that show el, numbered as in column-utils.h. */
  function ShownBy(el: nat): set<nat> {
    {el} +
    match el
    case 12 => {15}
    case 21 => {10, 14, 19}
    case 22 => {11}
    case 23 => {20, 39, 41}
    case 24 => {42}
    case 29 => {10, 14, 33}
    case 30 => {11}
    case 31 => {34, 39, 41}
    case 32 => {42}
    case 43 => {40}
    case _ => {}
  }

  lemma {:induction false} ShownByExactly(format: nat, el: nat)
    ensures el in FormatMatches(format) <==> format in ShownBy(el)
  {
  }

  /** The buffer size an operation on format el assumes; col_finalize allocates by the column's own format. */
  function MaxLen(el: nat): (n: nat)
    ensures 0 < n
  {
    if el == COL_INFO then COL_MAX_INFO_LEN else COL_MAX_LEN
  }

  /** No operation assumes a buffer of another size than the column has: 4096 characters for the Info column, else 256. */
  lemma {:induction false} BufferSizeAgrees(format: nat, el: nat)
    requires el in FormatMatches(format)
    ensures MaxLen(el) == MaxLen(format) == if format == 28 then 4096 else 256
  {
  }

  /** The C string at the start of a buffer. */
  function CString(b: seq<char>): (t: string)
    ensures |t| <= |b| && t == b[..|t|] && '\0' !in t && (|t| < |b| ==> b[|t|] == '\0')
  {
    if b == [] || b[0] == '\0' then "" else [b[0]] + CString(b[1..])
  }

  lemma {:induction false} CStringIs(b: seq<char>, t: string)
    requires |t| < |b| && t == b[..|t|] && '\0' !in t && b[|t|] == '\0'
    ensures CString(b) == t
  {
    if t != "" {
      CStringIs(b[1..], t[1..]);
    }
  }

  /** Writing a string over a buffer at or before the end of the string there. */
  lemma CStringOver(b: seq<char>, at: nat, s: string, after: seq<char>)
    requires at <= |CString(b)| && '\0' !in s
    ensures CString(b[..at] + s + ['\0'] + after) == CString(b)[..at] + s
  {
    var t := CString(b)[..at] + s;
    var w := b[..at] + s + ['\0'] + after;
    assert b[..at] == CString(b)[..at];
    assert w[..|t|] == t;
    assert '\0' !in t;
    CStringIs(w, t);
  }

  /** g_strlcpy to buf + at, and ws_vsnprintf of an already formatted string; returns the length of src. */
  method Strlcpy(buf: array<char>, at: nat, src: string, size: nat) returns (length: nat)
    requires at < buf.Length && size == buf.Length - at
    requires at <= |CString(buf[..])| && '\0' !in src
    modifies buf
    ensures length == |src|
    ensures CString(buf[..]) == old(CString(buf[..]))[..at] + Cut(src, size - 1)
    ensures at == 0 ==> CString(buf[..]) == Cut(src, size - 1)
  {
    ghost var was := buf[..];
    var n := if |src| < size then |src| else size - 1;
    forall k | 0 <= k < n {
      buf[at + k] := src[k];
    }
    buf[at + n] := '\0';
    length := |src|;
    assert buf[..] == was[..at] + Cut(src, size - 1) + ['\0'] + was[at + n + 1..];
    CStringOver(was, at, Cut(src, size - 1), was[at + n + 1..]);
  }

  /** g_strlcat */
  method Strlcat(buf: array<char>, src: string)
    requires |CString(buf[..])| < buf.Length && '\0' !in src
    modifies buf
    ensures CString(buf[..]) == Cut(old(CString(buf[..])) + src, buf.Length - 1)
  {
    hide Cut;
    ghost var t := CString(buf[..]);
    var at := |CString(buf[..])|;
    CutRest(t, src, buf.Length - 1);
    var _ := Strlcpy(buf, at, src, buf.Length - at);
  }

  predicate Terminated(parts: seq<Option<string>>) {
    forall k | 0 <= k < |parts| :: '\0' !in Element(parts[k])
  }

  /** The strings an operation is given are C strings; the list of a list operation has a first element. */
  predicate CStrings(op: Op) {
    match op
    case Add(str) => '\0' !in str
    case Set(str) => '\0' !in str
    case Append(separator, str) => '\0' !in str && (separator.Some? ==> '\0' !in separator.value)
    case AppendFormat(separator, str) => '\0' !in str && (separator.Some? ==> '\0' !in separator.value)
    case Prepend(str) => '\0' !in str
    case PrependFence(str) => '\0' !in str
    case AddList(parts) => 0 < |parts| && Terminated(parts)
    case AppendList(parts) => 0 < |parts| && Terminated(parts)
    case _ => true
  }

  /** col_item_t */
  class Column {
    const format: nat
    const buf: array<char>
    var data: Option<string>  // None: col_data is col_buf
    var fence: nat
    var writable: bool

    ghost function Text(): string
      reads this`data, buf
    {
      if data.Some? then data.value else CString(buf[..])
    }

    ghost function Shown(): View
      reads this`data, this`fence, buf
    {
      View(Text(), fence)
    }

    /** A string shown by reference is fenced as a whole or not at all; a buffer holds a terminator. */
    ghost predicate WellStored()
      reads this`data, this`fence, buf
    {
      buf.Length == MaxLen(format) &&
      match data
      case Some(s) => '\0' !in s && (fence == 0 || fence == |s|)
      case None => |CString(buf[..])| < buf.Length
    }

    ghost predicate Valid()
      reads this`data, this`fence, buf
    {
      WellStored() && Fenced(Shown(), buf.Length)
    }

    constructor (format: nat)
      ensures Valid() && fresh(buf) && this.format == format && Shown() == View("", 0) && writable
    {
      this.format := format;
      buf := new char[MaxLen(format)](_ => '\0');
      data := None;
      fence := 0;
      writable := true;
      new;
      CStringIs(buf[..], "");
    }

    method Reset()
      requires buf.Length == MaxLen(format)
      modifies this, buf
      ensures Valid() && Shown() == View("", 0) && writable
    {
      buf[0] := '\0';
      data, fence, writable := None, 0, true;
      CStringIs(buf[..], "");
    }

    method SetFence()
      requires Valid()
      modifies this`fence
      ensures WellStored() && Shown() == Step(old(Shown()), Op.SetFence, buf.Length)
    {
      fence := if data.Some? then |data.value| else |CString(buf[..])|;
    }

    method ClearFence()
      requires Valid()
      modifies this`fence
      ensures WellStored() && Shown() == Step(old(Shown()), Op.ClearFence, buf.Length)
    {
      fence := 0;
    }

    method Clear()
      requires Valid()
      modifies this`data, buf
      ensures WellStored() && Shown() == Step(old(Shown()), Op.Clear, buf.Length)
    {
      if data.None? || fence == 0 {
        ghost var was := buf[..];
        buf[fence] := '\0';
        if data.None? {
          assert was[..fence] == CString(was)[..fence];
          CStringIs(buf[..], CString(was)[..fence]);
        } else {
          CStringIs(buf[..], "");
        }
        data := None;
      }
    }

    /** COL_CHECK_APPEND: before text is appended, a string shown by reference is copied to the buffer. */
    method CheckAppend()
      requires Valid()
      modifies this`data, buf
      ensures Valid() && data.None?
      ensures Shown() == old(Shown()).(text := Cut(old(Text()), buf.Length - 1))
    {
      if data.Some? {
        var _ := Strlcpy(buf, 0, data.value, buf.Length);
        data := None;
      }
    }

    /** The common start of col_add_str, col_add_lstr and col_add_fstr. */
    method MakeRoom()
      requires Valid()
      modifies this`data, buf
      ensures data.None? && fence <= |CString(buf[..])| && fence < buf.Length
      ensures CString(buf[..])[..fence] == old(Text())[..fence]
    {
      if fence != 0 {
        CheckAppend();
      } else {
        data := None;
      }
    }

    method Add(str: string)
      requires Valid() && '\0' !in str
      modifies this`data, buf
      ensures WellStored() && Shown() == Step(old(Shown()), Op.Add(str), buf.Length)
    {
      hide Cut;
      CutRest(Text()[..fence], str, buf.Length - 1);
      MakeRoom();
      var _ := Strlcpy(buf, fence, str, buf.Length - fence);
    }

    method Set(str: string)
      requires Valid() && '\0' !in str
      modifies this`data, buf
      ensures WellStored() && Shown() == Step(old(Shown()), Op.Set(str), buf.Length)
    {
      hide Cut, CString;
      if fence != 0 {
        CutRest(Text()[..fence], str, buf.Length - 1);
        CheckAppend();
        var _ := Strlcpy(buf, fence, str, buf.Length - fence);
      } else {
        data := Some(str);
      }
    }

    /** The do-while loop of col_add_lstr and col_append_lstr. */
    method WriteList(start: nat, parts: seq<Option<string>>)
      requires 0 < |parts| && Terminated(parts)
      requires start < buf.Length && start <= |CString(buf[..])|
      modifies buf
      ensures CString(buf[..]) == Cut(old(CString(buf[..]))[..start] + Joined(parts), buf.Length - 1)
    {
      hide Joined, Cut;
      ghost var head, limit := CString(buf[..])[..start], buf.Length - 1;
      var length := Strlcpy(buf, start, Element(parts[0]), buf.Length - start);
      var pos, k := start + length, 1;
      ghost var written := head + Element(parts[0]);
      FirstElement(parts);
      CutRest(head, Element(parts[0]), limit);
      while pos < buf.Length && k < |parts|
        invariant 1 <= k <= |parts|
        invariant pos == |written| && written == head + Joined(parts[..k])
        invariant CString(buf[..]) == Cut(written, limit)
        decreases |parts| - k
      {
        NextElement(head, parts, k);
        CutRest(written, Element(parts[k]), limit);
        length := Strlcpy(buf, pos, Element(parts[k]), buf.Length - pos);
        written := written + Element(parts[k]);
        pos, k := pos + length, k + 1;
      }
      RestCutOff(head, parts, k, limit);
    }

    method AddList(parts: seq<Option<string>>)
      requires Valid() && 0 < |parts| && Terminated(parts)
      modifies this`data, buf
      ensures WellStored() && Shown() == Step(old(Shown()), Op.AddList(parts), buf.Length)
    {
      MakeRoom();
      WriteList(fence, parts);
    }

    method AppendList(parts: seq<Option<string>>)
      requires Valid() && 0 < |parts| && Terminated(parts)
      modifies this`data, buf
      ensures WellStored() && Shown() == Step(old(Shown()), Op.AppendList(parts), buf.Length)
    {
      hide Cut, Joined;
      CutThenMore(Text(), Joined(parts), buf.Length - 1);
      CheckAppend();
      var pos := |CString(buf[..])|;
      ghost var t := CString(buf[..]);
      assert t[..pos] == t;
      WriteList(pos, parts);
    }

    method Append(separator: Option<string>, str: string)
      requires Valid() && CStrings(Op.Append(separator, str))
      modifies this`data, buf
      ensures WellStored() && Shown() == Step(old(Shown()), Op.Append(separator, str), buf.Length)
    {
      hide Cut;
      ghost var t := Text();
      AppendTwice(t, Separated(separator, t), str, buf.Length - 1);
      CheckAppend();
      if separator.Some? && buf[0] != '\0' {
        Strlcat(buf, separator.value);
      }
      Strlcat(buf, str);
    }

    /** Formats at the end of the text; nothing when the separator has already filled the buffer. */
    method AppendFormat(separator: Option<string>, str: string)
      requires Valid() && CStrings(Op.AppendFormat(separator, str))
      modifies this`data, buf
      ensures WellStored() && Shown() == Step(old(Shown()), Op.AppendFormat(separator, str), buf.Length)
    {
      hide Cut, CString;
      ghost var t, sep, limit := Text(), Separated(separator, Text()), buf.Length - 1;
      FormatEnd(t, sep, str, limit);
      CheckAppend();
      var length := |CString(buf[..])|;
      if separator.Some? && separator.value != "" && length != 0 {
        Strlcat(buf, separator.value);
        length := length + |separator.value|;
      }
      assert CString(buf[..]) == Cut(Cut(t, limit) + sep, limit) && length == |Cut(t, limit)| + |sep|;
      if length < buf.Length {
        var _ := Strlcpy(buf, length, str, buf.Length - length);
      }
    }

    /** The common part of the two prepending operations: the new string, then the old text. */
    method PutBefore(str: string, orig: string)
      requires buf.Length == MaxLen(format) && '\0' !in str && '\0' !in orig
      modifies buf
      ensures CString(buf[..]) == Cut(str + orig, buf.Length - 1)
    {
      hide Cut;
      var _ := Strlcpy(buf, 0, str, buf.Length);
      CutThenMore(str, orig, buf.Length - 1);
      Strlcat(buf, orig);
    }

    method Prepend(str: string)
      requires Valid() && '\0' !in str
      modifies this`data, this`fence, buf
      ensures WellStored() && Shown() == Step(old(Shown()), Op.Prepend(str), buf.Length)
    {
      var orig := if data.Some? then data.value else CString(buf[..]);
      PutBefore(str, orig);
      if fence > 0 {
        fence := fence + |Cut(str, buf.Length - 1)|;
      }
      data := None;
    }

    method PrependFence(str: string)
      requires Valid() && '\0' !in str
      modifies this`data, this`fence, buf
      ensures WellStored() && Shown() == Step(old(Shown()), Op.PrependFence(str), buf.Length)
    {
      var orig := if data.Some? then data.value else CString(buf[..]);
      PutBefore(str, orig);
      if fence > 0 {
        fence := fence + |Cut(str, buf.Length - 1)|;
      } else {
        fence := |Cut(str, buf.Length - 1)|;
      }
      data := None;
    }

    /** One column's share of an operation. */
    method Apply(op: Op)
      requires Valid() && CStrings(op)
      modifies this`data, this`fence, buf
      ensures WellStored() && Shown() == Step(old(Shown()), op, buf.Length)
    {
      match op
      case SetFence => SetFence();
      case ClearFence => ClearFence();
      case Clear => Clear();
      case Add(str) => Add(str);
      case Set(str) => Set(str);
      case AddList(parts) => AddList(parts);
      case Append(separator, str) => Append(separator, str);
      case AppendFormat(separator, str) => AppendFormat(separator, str);
      case AppendList(parts) => AppendList(parts);
      case Prepend(str) => Prepend(str);
      case PrependFence(str) => PrependFence(str);
    }
  }

  /** What is cut off before appending would have been cut off afterwards. */
  lemma CutThenMore(a: string, b: string, n: nat)
    ensures Cut(Cut(a, n) + b, n) == Cut(a + b, n)
  {
  }

  lemma AppendTwice(t: string, sep: string, str: string, n: nat)
    ensures Cut(Cut(Cut(t, n) + sep, n) + str, n) == Cut(t + (sep + str), n)
    ensures sep == "" ==> Cut(Cut(t, n) + str, n) == Cut(t + (sep + str), n)
    ensures 0 < n ==> (Cut(t, n) == "" <==> t == "")
  {
    CutThenMore(t, sep, n);
    CutThenMore(t + sep, str, n);
    CutThenMore(t, str, n);
    assert t + sep + str == t + (sep + str);
    assert sep == "" ==> sep + str == str;
  }

  lemma CutRest(written: string, str: string, n: nat)
    requires |written| <= n
    ensures Cut(written, n) == written == written[..|written|]
    ensures written + Cut(str, n - |written|) == Cut(written + str, n)
  {
  }

  /** Where col_do_append_fstr formats, and why it need not when the separator was cut off. */
  lemma FormatEnd(t: string, sep: string, str: string, n: nat)
    requires 0 < n
    ensures Cut(t, n) == "" <==> t == ""
    ensures sep == "" ==> Cut(Cut(t, n) + sep, n) == Cut(t, n)
    ensures var u := Cut(t, n);
            if |u| + |sep| <= n then
              Cut(u + sep, n) == u + sep &&
              (u + sep)[..|u| + |sep|] + Cut(str, n - |u| - |sep|) == Cut(t + (sep + str), n)
            else
              Cut(u + sep, n) == Cut(t + (sep + str), n)
  {
    var u := Cut(t, n);
    CutThenMore(t, sep + str, n);
    assert u + sep + str == u + (sep + str);
    if |u| + |sep| <= n {
      CutRest(u + sep, str, n);
    } else {
      assert (u + sep + str)[..n] == (u + sep)[..n];
    }
  }

  lemma FirstElement(parts: seq<Option<string>>)
    requires 0 < |parts|
    ensures Joined(parts[..1]) == Element(parts[0])
  {
    assert Joined(parts[..1][1..]) == "";
  }

  lemma NextElement(head: string, parts: seq<Option<string>>, k: nat)
    requires k < |parts|
    ensures head + Joined(parts[..k]) + Element(parts[k]) == head + Joined(parts[..k + 1])
  {
    FirstElement([parts[k]]);
    JoinedPair(parts[..k], [parts[k]]);
    assert parts[..k + 1] == parts[..k] + [parts[k]];
    assert [parts[k]][..1] == [parts[k]];
  }

  lemma RestCutOff(head: string, parts: seq<Option<string>>, k: nat, n: nat)
    requires k <= |parts|
    requires k < |parts| ==> n < |head + Joined(parts[..k])|
    ensures Cut(head + Joined(parts[..k]), n) == Cut(head + Joined(parts), n)
  {
    hide Cut;
    JoinedPair(parts[..k], parts[k..]);
    assert parts == parts[..k] + parts[k..];
    NoRoomForRest(head + Joined(parts[..k]), Joined(parts[k..]), n);
    assert head + Joined(parts) == head + Joined(parts[..k]) + Joined(parts[k..]);
  }

  lemma NoRoomForRest(written: string, rest: string, n: nat)
    requires rest == "" || n < |written|
    ensures Cut(written, n) == Cut(written + rest, n)
  {
    assert rest == "" ==> written + rest == written;
  }

  lemma {:induction false} JoinedPair(a: seq<Option<string>>, b: seq<Option<string>>)
    ensures Joined(a + b) == Joined(a) + Joined(b)
  {
    if a == [] {
      assert a + b == b;
    } else {
      JoinedPair(a[1..], b);
      assert (a + b)[1..] == a[1..] + b;
      Regroup(Element(a[0]), Joined(a[1..]), Joined(b));
    }
  }
}
