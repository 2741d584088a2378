/**
 get_utf_16_string and get_ucs_2_string (charsets.c): decoding UTF-16 as in
 section 2.2 of RFC 2781, with replacement characters for errors.
 */
module Utf16 {
  import opened Basics

  const UNREPL := 0xFFFD

  predicate IsLeadSurrogate(u: int) { 0xD800 <= u < 0xDC00 }

  predicate IsTrailSurrogate(u: int) { 0xDC00 <= u < 0xE000 }

  predicate IsSurrogate(u: int) { 0xD800 <= u < 0xE000 }

  /** (((lead - 0xd800) << 10) | (trail - 0xdc00)) + 0x10000; the two parts have no bit in common. */
  function SurrogateValue(lead: int, trail: int): int {
    (lead - 0xD800) * 0x400 + (trail - 0xDC00) + 0x10000
  }

  predicate IsScalar(c: int) {
    0 <= c < 0x110000 && !IsSurrogate(c)
  }

  predicate AllScalars(t: seq<int>) {
    forall i :: 0 <= i < |t| ==> IsScalar(t[i])
  }

  datatype Encoding = BigEndian | LittleEndian

  /** pntoh16 or pletoh16 */
  function UnitAt(data: seq<byte>, i: nat, enc: Encoding): (u: int)
    requires i + 1 < |data|
    ensures 0 <= u < 0x10000
  {
    var first: int, second: int := data[i], data[i + 1];
    if enc.BigEndian? then first * 256 + second else second * 256 + first
  }

  /** The complete 16-bit units from byte i on. */
  function Units(data: seq<byte>, i: nat, enc: Encoding): seq<int>
    decreases |data| - i
  {
    if i + 1 < |data| then [UnitAt(data, i, enc)] + Units(data, i + 2, enc) else []
  }

  /** What a sequence of 16-bit units stands for; a lead surrogate always takes the unit after it along. */
  function Decode(units: seq<int>): seq<int> {
    if units == [] then []
    else if IsLeadSurrogate(units[0]) then
      if |units| == 1 then [UNREPL]
      else [if IsTrailSurrogate(units[1]) then SurrogateValue(units[0], units[1]) else UNREPL] + Decode(units[2..])
    else [if IsTrailSurrogate(units[0]) then UNREPL else units[0]] + Decode(units[1..])
  }

  lemma DecodeAt(data: seq<byte>, i: nat, enc: Encoding)
    requires i + 1 < |data|
    ensures var u := UnitAt(data, i, enc);
            Decode(Units(data, i, enc)) ==
            if IsLeadSurrogate(u) then
              if i + 3 >= |data| then [UNREPL] + Decode(Units(data, i + 2, enc))
              else
                var v := UnitAt(data, i + 2, enc);
                [if IsTrailSurrogate(v) then SurrogateValue(u, v) else UNREPL] + Decode(Units(data, i + 4, enc))
            else [if IsTrailSurrogate(u) then UNREPL else u] + Decode(Units(data, i + 2, enc))
  {
    var u, rest := UnitAt(data, i, enc), Units(data, i, enc);
    assert rest[0] == u && rest[1..] == Units(data, i + 2, enc);
    if i + 3 < |data| {
      assert rest[1] == UnitAt(data, i + 2, enc) && rest[2..] == Units(data, i + 4, enc);
    }
  }

  lemma Regroup(text: seq<int>, c: int, rest: seq<int>)
    ensures text + ([c] + rest) == text + [c] + rest
  {
  }

  lemma NothingLeft(data: seq<byte>, i: nat, enc: Encoding)
    requires i + 1 >= |data|
    ensures Decode(Units(data, i, enc)) == []
  {
  }

  method GetUtf16String(data: seq<byte>, enc: Encoding) returns (text: seq<int>)
    ensures text == Decode(Units(data, 0, enc)) + (if |data| % 2 == 1 then [UNREPL] else [])
  {
    hide UnitAt, IsLeadSurrogate, IsTrailSurrogate, SurrogateValue, Decode, Units;
    text := [];
    var i := 0;
    ghost var want := Decode(Units(data, 0, enc));
    while i + 1 < |data|
      invariant i % 2 == 0 && i <= |data|
      invariant text + Decode(Units(data, i, enc)) == want
    {
      DecodeAt(data, i, enc);
      ghost var before := text;
      var uchar2 := UnitAt(data, i, enc);
      if IsLeadSurrogate(uchar2) {
        i := i + 2;
        if i + 1 >= |data| {
          NothingLeft(data, i, enc);
          text := text + [UNREPL];
          Regroup(before, UNREPL, []);
          break;
        }
        var leadSurrogate := uchar2;
        uchar2 := UnitAt(data, i, enc);
        if IsTrailSurrogate(uchar2) {
          text := text + [SurrogateValue(leadSurrogate, uchar2)];
        } else {
          text := text + [UNREPL];
        }
      } else {
        if IsTrailSurrogate(uchar2) {
          text := text + [UNREPL];
        } else {
          text := text + [uchar2];
        }
      }
      i := i + 2;
      Regroup(before, text[|before|], Decode(Units(data, i, enc)));
    }
    NothingLeft(data, i, enc);
    if i < |data| {
      text := text + [UNREPL];
    }
  }

  method GetUcs2String(data: seq<byte>, enc: Encoding) returns (text: seq<int>)
    ensures text == Units(data, 0, enc)
  {
    text := [];
    var i := 0;
    while i + 1 < |data|
      invariant text + Units(data, i, enc) == Units(data, 0, enc)
    {
      text := text + [UnitAt(data, i, enc)];
      i := i + 2;
    }
  }

  /** Whatever the bytes, only Unicode scalar values come out. */
  lemma {:induction false} OnlyScalars(units: seq<int>)
    requires forall i :: 0 <= i < |units| ==> 0 <= units[i] < 0x10000
    ensures AllScalars(Decode(units))
  {
    if units != [] {
      if IsLeadSurrogate(units[0]) {
        if |units| > 1 {
          OnlyScalars(units[2..]);
        }
      } else {
        OnlyScalars(units[1..]);
      }
    }
  }

  lemma {:induction false} UnitsInRange(data: seq<byte>, i: nat, enc: Encoding)
    ensures forall k :: 0 <= k < |Units(data, i, enc)| ==> 0 <= Units(data, i, enc)[k] < 0x10000
    ensures |Units(data, i, enc)| == if i < |data| then (|data| - i) / 2 else 0
    decreases |data| - i
  {
    if i + 1 < |data| {
      UnitsInRange(data, i + 2, enc);
    }
  }

  /* ---------- section 2.1 of RFC 2781 ---------- */

  function EncodeOne(c: int): seq<int> {
    if c < 0x10000 then [c] else [0xD800 + (c - 0x10000) / 0x400, 0xDC00 + (c - 0x10000) % 0x400]
  }

  function Encode(t: seq<int>): seq<int> {
    if t == [] then [] else EncodeOne(t[0]) + Encode(t[1..])
  }

  function BytesOf(u: int, enc: Encoding): seq<byte>
    requires 0 <= u < 0x10000
  {
    if enc.BigEndian? then [u / 256, u % 256] else [u % 256, u / 256]
  }

  function Serialize(units: seq<int>, enc: Encoding): (data: seq<byte>)
    requires forall i :: 0 <= i < |units| ==> 0 <= units[i] < 0x10000
    ensures |data| == 2 * |units|
  {
    if units == [] then [] else BytesOf(units[0], enc) + Serialize(units[1..], enc)
  }

  lemma DecodeOne(c: int, rest: seq<int>)
    requires IsScalar(c)
    ensures Decode(EncodeOne(c) + rest) == [c] + Decode(rest)
    ensures forall u :: u in EncodeOne(c) ==> 0 <= u < 0x10000
  {
    var units := EncodeOne(c) + rest;
    if c < 0x10000 {
      assert units[1..] == rest;
    } else {
      assert units[2..] == rest;
    }
  }

  lemma {:induction false} DecodeEncode(t: seq<int>)
    requires AllScalars(t)
    ensures Decode(Encode(t)) == t
    ensures forall i :: 0 <= i < |Encode(t)| ==> 0 <= Encode(t)[i] < 0x10000
  {
    if t != [] {
      assert IsScalar(t[0]);
      DecodeEncode(t[1..]);
      DecodeOne(t[0], Encode(t[1..]));
      assert t == [t[0]] + t[1..];
    }
  }

  /** Good text in front is decoded as it is. */
  lemma {:induction false} DecodeAfterText(t: seq<int>, rest: seq<int>)
    requires AllScalars(t)
    ensures Decode(Encode(t) + rest) == t + Decode(rest)
  {
    hide Decode, EncodeOne;
    if t == [] {
      assert Encode(t) + rest == rest;
    } else {
      assert IsScalar(t[0]);
      DecodeAfterText(t[1..], rest);
      DecodeOne(t[0], Encode(t[1..]) + rest);
      assert Encode(t) + rest == EncodeOne(t[0]) + (Encode(t[1..]) + rest);
      assert t == [t[0]] + t[1..];
    }
  }

  /**
   Errors after any good text: a trail surrogate with no lead gives one replacement character; a
   lead takes the unit after it along whatever it is, and the two give one replacement
   character if that is no trail; a lead at the end gives one.
   */
  lemma {:induction false} DecodeErrors(t: seq<int>, u: int, v: int, rest: seq<int>)
    requires AllScalars(t)
    ensures 0xDC00 <= u <= 0xDFFF ==> Decode(Encode(t) + [u] + rest) == t + [0xFFFD] + Decode(rest)
    ensures 0xD800 <= u <= 0xDBFF && !(0xDC00 <= v <= 0xDFFF) ==>
              Decode(Encode(t) + [u, v] + rest) == t + [0xFFFD] + Decode(rest)
    ensures 0xD800 <= u <= 0xDBFF ==> Decode(Encode(t) + [u]) == t + [0xFFFD]
  {
    hide Encode;
    assert Encode(t) + [u] + rest == Encode(t) + ([u] + rest);
    assert Encode(t) + [u, v] + rest == Encode(t) + ([u, v] + rest);
    DecodeAfterText(t, [u] + rest);
    DecodeAfterText(t, [u, v] + rest);
    DecodeAfterText(t, [u]);
    assert ([u] + rest)[1..] == rest && ([u, v] + rest)[2..] == rest && [u][1..] == [];
    assert t + ([0xFFFD] + Decode(rest)) == t + [0xFFFD] + Decode(rest);
  }

  lemma {:induction false} UnitsOfShifted(head: seq<byte>, data: seq<byte>, i: nat, enc: Encoding)
    requires |head| == 2
    ensures Units(head + data, i + 2, enc) == Units(data, i, enc)
    decreases |data| - i
  {
    if i + 1 < |data| {
      UnitsOfShifted(head, data, i + 2, enc);
    }
  }

  lemma NoUnits(enc: Encoding)
    ensures Units([], 0, enc) == []
  {
  }

  lemma FirstUnit(u: int, data: seq<byte>, enc: Encoding)
    requires 0 <= u < 0x10000
    ensures Units(BytesOf(u, enc) + data, 0, enc) == [u] + Units(data, 0, enc)
  {
    UnitsOfShifted(BytesOf(u, enc), data, 0, enc);
  }

  lemma {:induction false} UnitsOfSerialized(units: seq<int>, enc: Encoding)
    requires forall i :: 0 <= i < |units| ==> 0 <= units[i] < 0x10000
    ensures Units(Serialize(units, enc), 0, enc) == units
  {
    hide BytesOf, Units;
    assert Units([], 0, enc) == [] by { NoUnits(enc); }
    if units != [] {
      UnitsOfSerialized(units[1..], enc);
      FirstUnit(units[0], Serialize(units[1..], enc), enc);
      assert units == [units[0]] + units[1..];
    }
  }

  /** Decoding inverts encoding, for every text of scalar values and both byte orders. */
  method Utf16RoundTrip(t: seq<int>, enc: Encoding) returns (text: seq<int>)
    requires AllScalars(t)
    ensures text == t
  {
    DecodeEncode(t);
    UnitsOfSerialized(Encode(t), enc);
    text := GetUtf16String(Serialize(Encode(t), enc), enc);
  }

  lemma {:induction false} DecodeWithoutSurrogates(units: seq<int>)
    requires forall i :: 0 <= i < |units| ==> !IsSurrogate(units[i])
    ensures Decode(units) == units
  {
    if units != [] {
      DecodeWithoutSurrogates(units[1..]);
      assert units == [units[0]] + units[1..];
    }
  }

  predicate HasSurrogate(units: seq<int>) {
    exists i :: 0 <= i < |units| && IsSurrogate(units[i])
  }

  /** The two decoders agree exactly on byte strings of even length in which no unit is a surrogate. */
  lemma {:induction false} AgreesWithUcs2(data: seq<byte>, enc: Encoding)
    ensures var units := Units(data, 0, enc);
            Decode(units) + (if |data| % 2 == 1 then [UNREPL] else []) == units
            <==> |data| % 2 == 0 && !HasSurrogate(units)
  {
    var units := Units(data, 0, enc);
    UnitsInRange(data, 0, enc);
    if HasSurrogate(units) {
      var i :| 0 <= i < |units| && IsSurrogate(units[i]);
      OnlyScalars(units);
      var text := Decode(units) + (if |data| % 2 == 1 then [UNREPL] else []);
      assert AllScalars(text);
      assert !(i < |text| && text[i] == units[i]);
    } else {
      DecodeWithoutSurrogates(units);
    }
  }
}
