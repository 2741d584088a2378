/**
 Parsing undoes printing: an Ethernet address written as six pairs of hexadecimal
 digits with one separator, with or without a mask length, is read back.
 */
module EtherRoundTrip {
  import opened Basics
  import opened OctetMask
  import opened EtherParse

  function HexDigit(n: nat, capital: bool): byte
    requires n < 16
  {
    if n < 10 then 48 + n else if capital then 55 + n else 87 + n
  }

  function Pair(b: byte, first: bool, second: bool): seq<byte> {
    [HexDigit(b / 16, first), HexDigit(b % 16, second)]
  }

  /** The octets from i on, with capital or small letters for each digit, and what follows the last of them. */
  function Printed(addr: seq<byte>, caps: nat -> bool, i: nat, sep: byte, tail: seq<byte>): seq<byte>
    requires |addr| == 6 && i < 6
    decreases 6 - i
  {
    var pair := Pair(addr[i], caps(2 * i), caps(2 * i + 1));
    if i == 5 then pair + tail else pair + [sep] + Printed(addr, caps, i + 1, sep, tail)
  }

  function Decimal(n: nat): seq<byte>
    requires n < 100
  {
    if n < 10 then [48 + n] else [48 + n / 10, 48 + n % 10]
  }

  /** A mask as it follows an address; none for 48. */
  function MaskText(mask: nat): seq<byte>
    requires mask <= 48
  {
    if mask == 48 then [] else [SLASH] + Decimal(mask)
  }

  lemma PairIsRead(buf: seq<byte>, p: nat, b: byte, first: bool, second: bool)
    requires p + 2 <= |buf| && buf[p..p + 2] == Pair(b, first, second) && !IsHex(At(buf, p + 2))
    ensures IsHex(At(buf, p)) && Strtoul16(buf, p) == (b as nat, p + 2)
  {
    assert buf[p] == buf[p..p + 2][0] && buf[p + 1] == buf[p..p + 2][1];
    var v := HexValue(At(buf, p));
    assert v == b / 16 && IsHex(At(buf, p + 1)) && HexValue(At(buf, p + 1)) == b % 16;
    assert Digits(buf, p + 1, 16, v) == Digits(buf, p + 2, 16, 16 * v + HexValue(At(buf, p + 1)));
  }

  lemma DecimalIsRead(buf: seq<byte>, p: nat, n: nat)
    requires 0 < n < 100 && p + |Decimal(n)| <= |buf| && buf[p..p + |Decimal(n)|] == Decimal(n)
    requires !IsDigit(At(buf, p + |Decimal(n)|))
    ensures IsDigit(At(buf, p)) && Digits(buf, p, 10, 0) == (n, p + |Decimal(n)|)
  {
    var text := buf[p..p + |Decimal(n)|];
    assert buf[p] == text[0];
    if n < 10 {
      assert Digits(buf, p, 10, 0) == Digits(buf, p + 1, 10, n);
    } else {
      assert buf[p + 1] == text[1] == 48 + n % 10 && buf[p] == 48 + n / 10;
      assert Digits(buf, p, 10, 0) == Digits(buf, p + 1, 10, n / 10);
      assert Digits(buf, p + 1, 10, n / 10) == Digits(buf, p + 2, 10, 10 * (n / 10) + n % 10);
    }
  }

  /** An octet may be written with "0x" in front; without a digit behind the "x" it is just the zero. */
  lemma {:induction false} PrefixIsRead(buf: seq<byte>, p: nat, b: byte, first: bool, second: bool)
    requires p + 2 <= |buf| && buf[p] == '0' as int && (buf[p + 1] == 'x' as int || buf[p + 1] == 'X' as int)
    ensures !IsHex(At(buf, p + 2)) ==> Strtoul16(buf, p) == (0, p + 1)
    ensures p + 4 <= |buf| && buf[p + 2..p + 4] == Pair(b, first, second) && !IsHex(At(buf, p + 4)) ==>
              Strtoul16(buf, p) == (b as nat, p + 4)
  {
    if p + 4 <= |buf| && buf[p + 2..p + 4] == Pair(b, first, second) && !IsHex(At(buf, p + 4)) {
      assert buf[p + 2] == buf[p + 2..p + 4][0] && buf[p + 3] == buf[p + 2..p + 4][1];
      var v := HexValue(At(buf, p + 2));
      assert v == b / 16 && IsHex(At(buf, p + 3)) && HexValue(At(buf, p + 3)) == b % 16;
      assert Digits(buf, p + 2, 16, 0) == Digits(buf, p + 3, 16, v);
      assert Digits(buf, p + 3, 16, v) == Digits(buf, p + 4, 16, 16 * v + HexValue(At(buf, p + 3)));
    }
  }

  /** What the parser makes of octets from i on, up to the last one. */
  lemma {:induction false} FiveRead(buf: seq<byte>, addr: seq<byte>, caps: nat -> bool, read: seq<byte>, i: nat, p: nat,
                                    sep: byte, tail: seq<byte>, acceptMask: bool) returns (last: seq<byte>)
    requires |addr| == |read| == 6 && i < 6 && IsSeparator(sep) && read[..i] == addr[..i]
    requires p <= |buf| && buf[p..] == Printed(addr, caps, i, sep, tail)
    ensures |last| == 6 && last[5 := addr[5]] == addr
    ensures var q := p + 3 * (5 - i);
            q + 2 <= |buf| && buf[q..q + 2] == Pair(addr[5], caps(10), caps(11)) && buf[q + 2..] == tail
    ensures i < 5 ==>
              SlowFrom(buf, read, i, p, if i == 0 then 0 else sep, acceptMask)
              == SlowFrom(buf, last, 5, p + 3 * (5 - i), sep, acceptMask)
    ensures i == 5 ==> last == read
    decreases 6 - i
  {
    hide Strtoul16, Pair, Printed, SlowFrom, IsHex;
    PrintedParts(buf, addr, caps, i, p, sep, tail);
    if i < 5 {
      SeparatorIsNoDigit(sep);
      PairIsRead(buf, p, addr[i], caps(2 * i), caps(2 * i + 1));
      GoingStep(buf, read, i, p, if i == 0 then 0 else sep, acceptMask);
      var next := read[i := addr[i]];
      assert next[..i + 1] == next[..i] + [next[i]] == addr[..i] + [addr[i]] == addr[..i + 1];
      last := FiveRead(buf, addr, caps, next, i + 1, p + 3, sep, tail, acceptMask);
    } else {
      last := read;
      assert read[5 := addr[5]] == addr[..5] + [addr[5]] == addr;
    }
  }

  lemma SeparatorIsNoDigit(sep: byte)
    requires IsSeparator(sep)
    ensures !IsHex(sep) && sep != 0
  {
  }

  lemma PrintedParts(buf: seq<byte>, addr: seq<byte>, caps: nat -> bool, i: nat, p: nat, sep: byte, tail: seq<byte>)
    requires |addr| == 6 && i < 6 && p <= |buf| && buf[p..] == Printed(addr, caps, i, sep, tail)
    ensures p + 2 <= |buf| && buf[p..p + 2] == Pair(addr[i], caps(2 * i), caps(2 * i + 1))
    ensures i < 5 ==> p + 3 <= |buf| && At(buf, p + 2) == sep && buf[p + 3..] == Printed(addr, caps, i + 1, sep, tail)
    ensures i == 5 ==> buf[p + 2..] == tail
  {
    hide HexDigit;
    var rest := buf[p..];
    assert |Pair(addr[i], caps(2 * i), caps(2 * i + 1))| == 2 && rest[..2] == Pair(addr[i], caps(2 * i), caps(2 * i + 1)) && buf[p..p + 2] == rest[..2];
    if i < 5 {
      assert buf[p + 2] == rest[2] && buf[p + 3..] == rest[3..];
    } else {
      assert buf[p + 2..] == rest[2..];
    }
  }

  /** The last octet with a mask behind it, and what follows the mask. */
  lemma LastMask(buf: seq<byte>, addr: seq<byte>, caps: nat -> bool, read: seq<byte>, p: nat, sep: byte, mask: nat, after: seq<byte>)
    requires |addr| == |read| == 6 && 0 < mask < 100 && IsSeparator(sep)
    requires p + 2 <= |buf| && buf[p..p + 2] == Pair(addr[5], caps(10), caps(11))
    requires buf[p + 2..] == [SLASH] + Decimal(mask) + after && !IsDigit(At(after, 0))
    requires read[5 := addr[5]] == addr
    ensures SlowFrom(buf, read, 5, p, sep, true) ==
            if mask < 48 && (At(after, 0) == 0 || IsSpace(At(after, 0)))
            then Outcome(true, MaskAddr(addr, mask), Some(mask), 6) else Outcome(false, addr, None, 6)
  {
    hide Strtoul16, MaskAddr, Digits, Decimal, HexDigit;
    var rest, n := buf[p + 2..], |Decimal(mask)|;
    assert At(buf, p + 2) == rest[0] == SLASH;
    PairIsRead(buf, p, addr[5], caps(10), caps(11));
    assert buf[p + 3..p + 3 + n] == rest[1..1 + n] == Decimal(mask);
    assert buf[p + 3 + n..] == rest[1 + n..] == after;
    assert At(buf, p + 3 + n) == At(after, 0);
    DecimalIsRead(buf, p + 3, mask);
  }

  lemma WholeAddress(addr: seq<byte>)
    requires |addr| == 6
    ensures MaskAddr(addr, 48) == addr
  {
    hide MaskOctet;
  }

  /** For every address, separator and mask length, whatever the buffer held before. */
  lemma {:induction false} ParsingUndoesPrinting(addr: seq<byte>, caps: nat -> bool, was: seq<byte>, sep: byte, mask: nat)
    requires |addr| == |was| == 6 && IsSeparator(sep) && 0 < mask <= 48
    ensures Slow(Printed(addr, caps, 0, sep, MaskText(mask)), was, true) == Outcome(true, MaskAddr(addr, mask), Some(mask), 6)
  {
    hide SlowFrom, Printed, Decimal, MaskAddr;
    var buf := Printed(addr, caps, 0, sep, MaskText(mask));
    assert buf[0..] == buf;
    var last := FiveRead(buf, addr, caps, was, 0, 0, sep, MaskText(mask), true);
    WholeAddress(addr);
    if mask == 48 {
      LastPlain(buf, addr, caps, last, 15, sep, [], true);
    } else {
      assert MaskText(mask) == [SLASH] + Decimal(mask) + [];
      LastMask(buf, addr, caps, last, 15, sep, mask, []);
    }
  }

  /** The characters that may follow a mask: the end of the string and white space. */
  predicate EndsMask(c: byte) {
    c in {0, 9, 10, 12, 13, 32}
  }

  /** A mask of 1 to 47 is accepted, and exactly if the character behind it ends it; what comes after that does not matter. */
  lemma {:induction false} MaskEndsExactly(
      addr: seq<byte>, caps: nat -> bool, was: seq<byte>, sep: byte, mask: nat, c: byte, tail: seq<byte>)
    requires |addr| == |was| == 6 && IsSeparator(sep) && 0 < mask < 100 && !(48 <= c <= 57)
    ensures var o := Slow(Printed(addr, caps, 0, sep, [SLASH] + Decimal(mask) + ([c] + tail)), was, true);
            && (o.ok <==> mask < 48 && EndsMask(c))
            && (o.ok ==> o == Outcome(true, MaskAddr(addr, mask), Some(mask), 6))
  {
    hide SlowFrom, Printed, Decimal, MaskAddr;
    var after := [SLASH] + Decimal(mask) + ([c] + tail);
    var buf := Printed(addr, caps, 0, sep, after);
    assert buf[0..] == buf;
    var last := FiveRead(buf, addr, caps, was, 0, 0, sep, after, true);
    LastMask(buf, addr, caps, last, 15, sep, mask, [c] + tail);
  }

  /** Six printed octets that end, or with one more separator and any text. */
  predicate EndsPlainly(tail: seq<byte>, sep: byte) {
    tail == [] || tail[0] == sep
  }

  lemma LastPlain(buf: seq<byte>, addr: seq<byte>, caps: nat -> bool, read: seq<byte>, p: nat, sep: byte, tail: seq<byte>, acceptMask: bool)
    requires |addr| == |read| == 6 && IsSeparator(sep) && EndsPlainly(tail, sep) && read[5 := addr[5]] == addr
    requires p + 2 <= |buf| && buf[p..p + 2] == Pair(addr[5], caps(10), caps(11)) && buf[p + 2..] == tail
    ensures SlowFrom(buf, read, 5, p, sep, acceptMask) ==
            Outcome(true, addr, if tail == [] && acceptMask then Some(48) else None, 6)
  {
    hide Strtoul16, Pair;
    SeparatorIsNoDigit(sep);
    if tail != [] {
      assert At(buf, p + 2) == buf[p + 2..][0] == sep;
    }
    PairIsRead(buf, p, addr[5], caps(10), caps(11));
  }

  /** Without a mask, allowed or not, an address is read back; and so it is with a separator and any text behind it. */
  lemma {:induction false} AnythingMayFollow(addr: seq<byte>, caps: nat -> bool, was: seq<byte>, sep: byte, tail: seq<byte>, acceptMask: bool)
    requires |addr| == |was| == 6 && IsSeparator(sep)
    ensures Slow(Printed(addr, caps, 0, sep, []), was, acceptMask) == Outcome(true, addr, if acceptMask then Some(48) else None, 6)
    ensures Slow(Printed(addr, caps, 0, sep, [sep] + tail), was, acceptMask) == Outcome(true, addr, None, 6)
  {
    hide SlowFrom, Printed;
    var plain, more := Printed(addr, caps, 0, sep, []), Printed(addr, caps, 0, sep, [sep] + tail);
    assert plain[0..] == plain && more[0..] == more;
    var last := FiveRead(plain, addr, caps, was, 0, 0, sep, [], acceptMask);
    LastPlain(plain, addr, caps, last, 15, sep, [], acceptMask);
    last := FiveRead(more, addr, caps, was, 0, 0, sep, [sep] + tail, acceptMask);
    LastPlain(more, addr, caps, last, 15, sep, [sep] + tail, acceptMask);
  }
}
