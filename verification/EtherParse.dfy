/**
 The two parsers of Ethernet addresses in addr_resolv.c: parse_ether_address, and
 parse_ether_address_fast, which handles the common formats of the manuf file and
 leaves everything else to the first.
 */
module EtherParse {
  import opened Basics
  import opened OctetMask

  /** A C string in a buffer: what follows the buffer reads as its terminator. */
  function At(buf: seq<byte>, i: nat): byte {
    if i < |buf| then buf[i] else 0
  }

  const COLON := 58
  const DASH := 45
  const DOT := 46
  const SLASH := 47

  /** What a parser did: `mask` is None where it leaves the caller's mask alone, `octets` counts the octets it read. */
  datatype Outcome = Outcome(ok: bool, addr: seq<byte>, mask: Option<nat>, octets: nat)

  /* ---------- parse_ether_address ---------- */

  predicate IsDigit(c: byte) { 48 <= c <= 57 }

  /** g_ascii_isxdigit */
  predicate IsHex(c: byte) {
    IsDigit(c) || 65 <= c <= 70 || 97 <= c <= 102
  }

  function HexValue(c: byte): nat
    requires IsHex(c)
  {
    if IsDigit(c) then c - 48 else if c <= 70 then c - 55 else c - 87
  }

  /** g_ascii_isspace */
  predicate IsSpace(c: byte) {
    c == 9 || c == 10 || c == 12 || c == 13 || c == 32
  }

  /**
   strtoul from a digit on: the value of the digits read, and where they end.
   Where strtoul saturates this value is out of both parsers' range as well.
   */
  function Digits(buf: seq<byte>, i: nat, base: nat, acc: nat): (r: (nat, nat))
    requires base == 10 || base == 16
    ensures r.1 >= i
    decreases |buf| - i
  {
    if i < |buf| && (if base == 16 then IsHex(buf[i]) else IsDigit(buf[i]))
    then Digits(buf, i + 1, base, base * acc + HexValue(buf[i]))
    else (acc, i)
  }

  /** In base 16 strtoul takes an optional "0x" along. */
  function Strtoul16(buf: seq<byte>, i: nat): (r: (nat, nat))
    requires IsHex(At(buf, i))
    ensures r.1 > i
  {
    if At(buf, i) == 48 && (At(buf, i + 1) == 120 || At(buf, i + 1) == 88) && IsHex(At(buf, i + 2))
    then Digits(buf, i + 2, 16, 0)
    else Digits(buf, i + 1, 16, HexValue(At(buf, i)))
  }

  /** From octet i on, at position p; sep is the separator seen so far, 0 for none. */
  function SlowFrom(buf: seq<byte>, addr: seq<byte>, i: nat, p: nat, sep: byte, acceptMask: bool): Outcome
    requires |addr| == 6 && i <= 6
    decreases 6 - i
  {
    if i == 6 then Outcome(true, addr, None, 6)
    else if !IsHex(At(buf, p)) then Outcome(false, addr, None, i)
    else
      var (num, q) := Strtoul16(buf, p);
      if num > 0xFF then Outcome(false, addr, None, i)
      else
        var read := addr[i := num as byte];
        var c := At(buf, q);
        if c == SLASH then SlowMask(buf, read, i + 1, q + 1, acceptMask)
        else if c == 0 then
          if i == 2 then Outcome(acceptMask, read, if acceptMask then Some(0) else None, 3)
          else if i == 5 then Outcome(true, read, if acceptMask then Some(48) else None, 6)
          else Outcome(false, read, None, i + 1)
        else if (if sep == 0 then c != COLON && c != DASH && c != DOT else c != sep)
        then Outcome(false, read, None, i + 1)
        else SlowFrom(buf, read, i + 1, q + 1, c, acceptMask)
  }

  /** After a slash at p - 1 and `octets` octets. */
  function SlowMask(buf: seq<byte>, addr: seq<byte>, octets: nat, p: nat, acceptMask: bool): Outcome
    requires |addr| == 6
  {
    if !acceptMask || !IsDigit(At(buf, p)) then Outcome(false, addr, None, octets)
    else
      var (num, q) := Digits(buf, p, 10, 0);
      if (At(buf, q) != 0 && !IsSpace(At(buf, q))) || num == 0 || num >= 48 then Outcome(false, addr, None, octets)
      else Outcome(true, MaskAddr(addr, num), Some(num), octets)
  }

  function Slow(buf: seq<byte>, addr: seq<byte>, acceptMask: bool): Outcome
    requires |addr| == 6
  {
    SlowFrom(buf, addr, 0, 0, 0, acceptMask)
  }

  method ParseEtherAddress(buf: seq<byte>, addr: array<byte>, acceptMask: bool)
    returns (ok: bool, mask: Option<nat>)
    requires addr.Length == 6
    modifies addr
    ensures ok == Slow(buf, old(addr[..]), acceptMask).ok
    ensures mask == Slow(buf, old(addr[..]), acceptMask).mask
    ensures addr[..] == Slow(buf, old(addr[..]), acceptMask).addr
  {
    hide MaskAddr, Digits, Strtoul16, SlowMask;
    ghost var want := Slow(buf, addr[..], acceptMask);
    mask := None;
    var p := 0;
    var sep: byte := 0;
    var i := 0;
    while i < 6
      invariant 0 <= i <= 6 && mask == None
      invariant SlowFrom(buf, addr[..], i, p, sep, acceptMask) == want
    {
      if !IsHex(At(buf, p)) {
        return false, None;
      }
      ghost var was := addr[..];
      var (num, q) := Strtoul16(buf, p);
      if num > 0xFF {
        return false, None;
      }
      addr[i] := num;
      assert addr[..] == was[i := num as byte];
      p := q;
      if At(buf, p) == SLASH {
        ok, mask := ParseMask(buf, addr, i + 1, p + 1, acceptMask);
        return;
      }
      if At(buf, p) == 0 {
        if i == 2 {
          if !acceptMask {
            return false, None;
          }
          return true, Some(0);
        }
        if i == 5 {
          return true, if acceptMask then Some(48) else None;
        }
        return false, None;
      } else {
        if sep == 0 {
          if At(buf, p) != COLON && At(buf, p) != DASH && At(buf, p) != DOT {
            return false, None;
          }
          sep := At(buf, p);
        } else {
          if At(buf, p) != sep {
            return false, None;
          }
        }
      }
      p := p + 1;
      i := i + 1;
    }
    return true, None;
  }

  method ParseMask(buf: seq<byte>, addr: array<byte>, octets: nat, p: nat, acceptMask: bool)
    returns (ok: bool, mask: Option<nat>)
    requires addr.Length == 6
    modifies addr
    ensures ok == SlowMask(buf, old(addr[..]), octets, p, acceptMask).ok
    ensures mask == SlowMask(buf, old(addr[..]), octets, p, acceptMask).mask
    ensures addr[..] == SlowMask(buf, old(addr[..]), octets, p, acceptMask).addr
  {
    if !acceptMask || !IsDigit(At(buf, p)) {
      return false, None;
    }
    var (num, q) := Digits(buf, p, 10, 0);
    if At(buf, q) != 0 && !IsSpace(At(buf, q)) {
      return false, None;
    }
    if num == 0 || num >= 48 {
      return false, None;
    }
    MaskInPlace(addr, num);
    return true, Some(num);
  }

  /* ---------- parse_ether_address_fast ---------- */

  /** str_to_nibble, as guint8: 0xFF where there is no hexadecimal digit */
  function Nibble(c: byte): byte {
    if IsHex(c) then HexValue(c) else 0xFF
  }

  /** (nibble << 4) | nibble, as guint8: 0x80 is set unless both are digits and the first is below 8. */
  function Octet(c: byte, d: byte): byte {
    if Nibble(d) == 0xFF then 0xFF
    else if Nibble(c) == 0xFF then 0xF0 + Nibble(d)
    else 16 * Nibble(c) + Nibble(d)
  }

  function Fast(buf: seq<byte>, addr: seq<byte>, acceptMask: bool): Outcome
    requires |addr| == 6
  {
    var num0, num1, num2 := Octet(At(buf, 0), At(buf, 1)), Octet(At(buf, 3), At(buf, 4)), Octet(At(buf, 6), At(buf, 7));
    if At(buf, 2) != COLON || At(buf, 5) != COLON then Outcome(false, addr, None, 0)
    else if num0 >= 0x80 || num1 >= 0x80 || num2 >= 0x80 then Outcome(false, addr, None, 0)
    else
      var three := [num0, num1, num2] + addr[3..];
      if At(buf, 8) == 0 && acceptMask then Outcome(true, three, Some(0), 3)
      else if At(buf, 8) != COLON || !acceptMask then Outcome(false, three, None, 3)
      else FastTail(buf, three)
  }

  function FastTail(buf: seq<byte>, addr: seq<byte>): Outcome
    requires |addr| == 6
  {
    var num3, num4, num5 :=
      Octet(At(buf, 9), At(buf, 10)), Octet(At(buf, 12), At(buf, 13)), Octet(At(buf, 15), At(buf, 16));
    if num3 >= 0x80 || num4 >= 0x80 || num5 >= 0x80 || At(buf, 11) != COLON || At(buf, 14) != COLON
    then Outcome(false, addr, None, 3)
    else
      var six := addr[..3] + [num3, num4, num5];
      if At(buf, 17) == 0 then Outcome(true, six, Some(48), 6)
      else if At(buf, 17) != SLASH || At(buf, 20) != 0 then Outcome(false, six, None, 6)
      else if At(buf, 18) == 51 && At(buf, 19) == 54 then
        Outcome(true, addr[..3] + [num3, MaskOctet(num4, 4), 0], Some(36), 6)
      else if At(buf, 18) == 50 && At(buf, 19) == 56 then
        Outcome(true, addr[..3] + [MaskOctet(num3, 4), 0, 0], Some(28), 6)
      else Outcome(false, six, None, 6)
  }

  method ParseEtherAddressFast(buf: seq<byte>, addr: array<byte>, acceptMask: bool)
    returns (ok: bool, mask: Option<nat>)
    requires addr.Length == 6
    modifies addr
    ensures ok == Fast(buf, old(addr[..]), acceptMask).ok
    ensures mask == Fast(buf, old(addr[..]), acceptMask).mask
    ensures addr[..] == Fast(buf, old(addr[..]), acceptMask).addr
  {
    hide MaskOctet, Octet, At;
    if At(buf, 2) != COLON || At(buf, 5) != COLON {
      return false, None;
    }
    var num0, num1, num2 := Octet(At(buf, 0), At(buf, 1)), Octet(At(buf, 3), At(buf, 4)), Octet(At(buf, 6), At(buf, 7));
    if num0 >= 0x80 || num1 >= 0x80 || num2 >= 0x80 {
      return false, None;
    }
    addr[0], addr[1], addr[2] := num0, num1, num2;
    if At(buf, 8) == 0 && acceptMask {
      return true, Some(0);
    } else if At(buf, 8) != COLON || !acceptMask {
      return false, None;
    }
    var num3, num4, num5 :=
      Octet(At(buf, 9), At(buf, 10)), Octet(At(buf, 12), At(buf, 13)), Octet(At(buf, 15), At(buf, 16));
    if num3 >= 0x80 || num4 >= 0x80 || num5 >= 0x80 || At(buf, 11) != COLON || At(buf, 14) != COLON {
      return false, None;
    }
    addr[3], addr[4], addr[5] := num3, num4, num5;
    if At(buf, 17) == 0 {
      return true, Some(48);
    } else if At(buf, 17) != SLASH || At(buf, 20) != 0 {
      return false, None;
    }
    if At(buf, 18) == 51 && At(buf, 19) == 54 {
      addr[4] := MaskOctet(addr[4], 4);
      addr[5] := 0;
      return true, Some(36);
    }
    if At(buf, 18) == 50 && At(buf, 19) == 56 {
      addr[3] := MaskOctet(addr[3], 4);
      addr[4], addr[5] := 0, 0;
      return true, Some(28);
    }
    return false, None;
  }

  /* ---------- the fast parser refines the slow one ---------- */

  /** An octet the fast parser accepts is two digits, and strtoul reads exactly those if no digit follows. */
  lemma OctetIsStrtoul(buf: seq<byte>, p: nat)
    requires Octet(At(buf, p), At(buf, p + 1)) < 0x80 && !IsHex(At(buf, p + 2))
    ensures IsHex(At(buf, p)) && Strtoul16(buf, p) == (Octet(At(buf, p), At(buf, p + 1)) as nat, p + 2)
  {
    assert IsHex(At(buf, p)) && IsHex(At(buf, p + 1));
    var v := HexValue(At(buf, p));
    assert Digits(buf, p + 1, 16, v) == Digits(buf, p + 2, 16, 16 * v + HexValue(At(buf, p + 1)));
  }

  /** One octet of the slow parser, where the fast one reads an octet below 0x80 followed by a colon. */
  lemma SlowStep(buf: seq<byte>, addr: seq<byte>, i: nat, p: nat, sep: byte, acceptMask: bool)
    requires |addr| == 6 && i < 6 && (sep == 0 || sep == COLON)
    requires Octet(At(buf, p), At(buf, p + 1)) < 0x80 && At(buf, p + 2) == COLON
    ensures SlowFrom(buf, addr, i, p, sep, acceptMask)
         == SlowFrom(buf, addr[i := Octet(At(buf, p), At(buf, p + 1))], i + 1, p + 3, COLON, acceptMask)
  {
    hide Digits, Octet, SlowMask;
    OctetIsStrtoul(buf, p);
  }

  lemma SlowLast(buf: seq<byte>, addr: seq<byte>, i: nat, p: nat)
    requires |addr| == 6 && (i == 2 || i == 5)
    requires Octet(At(buf, p), At(buf, p + 1)) < 0x80 && At(buf, p + 2) == 0
    ensures SlowFrom(buf, addr, i, p, COLON, true)
         == Outcome(true, addr[i := Octet(At(buf, p), At(buf, p + 1))], Some(if i == 2 then 0 else 48), i + 1)
  {
    hide Digits, Octet, SlowMask;
    OctetIsStrtoul(buf, p);
  }

  lemma SlowSlash(buf: seq<byte>, addr: seq<byte>, p: nat)
    requires |addr| == 6
    requires Octet(At(buf, p), At(buf, p + 1)) < 0x80 && At(buf, p + 2) == SLASH
    requires IsDigit(At(buf, p + 3)) && IsDigit(At(buf, p + 4)) && At(buf, p + 5) == 0
    requires 0 < 10 * HexValue(At(buf, p + 3)) + HexValue(At(buf, p + 4)) < 48
    ensures var m := 10 * HexValue(At(buf, p + 3)) + HexValue(At(buf, p + 4));
            SlowFrom(buf, addr, 5, p, COLON, true)
            == Outcome(true, MaskAddr(addr[5 := Octet(At(buf, p), At(buf, p + 1))], m), Some(m), 6)
  {
    OctetIsStrtoul(buf, p);
    hide Octet, MaskAddr, Strtoul16;
    TwoDigits(buf, p + 3);
  }

  lemma TwoDigits(buf: seq<byte>, p: nat)
    requires IsDigit(At(buf, p)) && IsDigit(At(buf, p + 1)) && !IsDigit(At(buf, p + 2))
    ensures Digits(buf, p, 10, 0) == (10 * HexValue(At(buf, p)) + HexValue(At(buf, p + 1)), p + 2)
  {
    var v := HexValue(At(buf, p));
    assert Digits(buf, p, 10, 0) == Digits(buf, p + 1, 10, v);
    assert Digits(buf, p + 1, 10, v) == Digits(buf, p + 2, 10, 10 * v + HexValue(At(buf, p + 1)));
  }

  /** Two hexadecimal digits, the first below 8. */
  predicate SmallPair(buf: seq<byte>, p: nat) {
    48 <= At(buf, p) <= 55 && IsHex(At(buf, p + 1))
  }

  /** The text accepted by the fast parser: three or six small octets with colons, and after six of them maybe /36 or /28. */
  lemma {:induction false} FastAcceptsExactly(buf: seq<byte>, addr: seq<byte>, acceptMask: bool)
    requires |addr| == 6
    ensures Fast(buf, addr, acceptMask).ok <==>
            && acceptMask
            && SmallPair(buf, 0) && At(buf, 2) == COLON && SmallPair(buf, 3) && At(buf, 5) == COLON && SmallPair(buf, 6)
            && (At(buf, 8) == 0 ||
                 (&& At(buf, 8) == COLON && SmallPair(buf, 9) && At(buf, 11) == COLON && SmallPair(buf, 12)
                  && At(buf, 14) == COLON && SmallPair(buf, 15)
                  && (At(buf, 17) == 0 ||
                       (At(buf, 17) == SLASH && At(buf, 20) == 0 &&
                        ((At(buf, 18) == '3' as int && At(buf, 19) == '6' as int) ||
                         (At(buf, 18) == '2' as int && At(buf, 19) == '8' as int))))))
  {
    hide Octet, At, MaskOctet, IsHex;
    forall p: nat
      ensures Octet(At(buf, p), At(buf, p + 1)) < 0x80 <==> SmallPair(buf, p)
    {
      SmallPairIs(buf, p);
    }
    assert Octet(At(buf, 0), At(buf, 0 + 1)) < 0x80 <==> SmallPair(buf, 0);
  }

  lemma SmallPairIs(buf: seq<byte>, p: nat)
    ensures Octet(At(buf, p), At(buf, p + 1)) < 0x80 <==> SmallPair(buf, p)
  {
    hide At;
  }

  /** Whatever the fast parser accepts, the slow one accepts with the same address and the same mask. */
  lemma {:induction false} FastRefinesSlow(buf: seq<byte>, addr: seq<byte>, acceptMask: bool)
    requires |addr| == 6 && Fast(buf, addr, acceptMask).ok
    ensures Slow(buf, addr, acceptMask) == Fast(buf, addr, acceptMask)
  {
    hide SlowFrom, Octet, MaskAddr, MaskOctet;
    var n0, n1, n2 := Octet(At(buf, 0), At(buf, 1)), Octet(At(buf, 3), At(buf, 4)), Octet(At(buf, 6), At(buf, 7));
    var a1 := addr[0 := n0];
    var a2 := a1[1 := n1];
    var a3 := a2[2 := n2];
    SlowStep(buf, addr, 0, 0, 0, true);
    SlowStep(buf, a1, 1, 3, COLON, true);
    assert a3 == [n0, n1, n2] + addr[3..];
    if At(buf, 8) == 0 {
      SlowLast(buf, a2, 2, 6);
    } else {
      SlowStep(buf, a2, 2, 6, COLON, true);
      TailRefines(buf, a3);
    }
  }

  lemma TailRefines(buf: seq<byte>, addr: seq<byte>)
    requires |addr| == 6 && FastTail(buf, addr).ok
    ensures SlowFrom(buf, addr, 3, 9, COLON, true) == FastTail(buf, addr)
  {
    hide SlowFrom, Octet, MaskAddr, MaskOctet;
    var n3, n4, n5 :=
      Octet(At(buf, 9), At(buf, 10)), Octet(At(buf, 12), At(buf, 13)), Octet(At(buf, 15), At(buf, 16));
    var a4 := addr[3 := n3];
    var a5 := a4[4 := n4];
    var a6 := a5[5 := n5];
    SlowStep(buf, addr, 3, 9, COLON, true);
    SlowStep(buf, a4, 4, 12, COLON, true);
    assert a6 == addr[..3] + [n3, n4, n5];
    if At(buf, 17) == 0 {
      SlowLast(buf, a5, 5, 15);
    } else {
      SlowSlash(buf, a5, 15);
      MaskLiterals(a6);
    }
  }

  /** The fast parser's literal masking is the slow one's loop for /36 and /28. */
  lemma {:induction false} MaskLiterals(a: seq<byte>)
    requires |a| == 6
    ensures MaskAddr(a, 36) == a[..3] + [a[3], MaskOctet(a[4], 4), 0]
    ensures MaskAddr(a, 28) == a[..3] + [MaskOctet(a[3], 4), 0, 0]
  {
    hide MaskOctet;
  }

  /* ---------- octets that were not given ---------- */

  /** What the parser has of an address when it accepts: the octets read, over the buffer's old content. */
  predicate ReadOver(read: seq<byte>, addr: seq<byte>, octets: nat) {
    |read| == |addr| == 6 && octets <= 6 && read[octets..] == addr[octets..]
  }

  /** How an accepted entry leaves the buffer, given what was read into it. */
  predicate LeavesMasked(o: Outcome, read: seq<byte>) {
    |read| == 6 && o.octets <= 6 &&
    match o.mask
    case None => o.octets == 6 && o.addr == read
    case Some(m) =>
      if m == 0 then o.octets == 3 && o.addr == read
      else if m == 48 then o.octets == 6 && o.addr == read
      else m < 48 && o.addr == MaskAddr(read, m)
  }

  /** Over two buffers the parser does the same; it reads the same octets into both. */
  predicate Alike(oa: Outcome, ob: Outcome, a: seq<byte>, b: seq<byte>, ra: seq<byte>, rb: seq<byte>) {
    oa.ok == ob.ok && oa.mask == ob.mask && oa.octets == ob.octets &&
    (oa.ok ==>
       LeavesMasked(oa, ra) && LeavesMasked(ob, rb) &&
       ReadOver(ra, a, oa.octets) && ReadOver(rb, b, oa.octets) && ra[..oa.octets] == rb[..oa.octets])
  }

  lemma {:induction false} ReadsAlike(buf: seq<byte>, a: seq<byte>, b: seq<byte>, i: nat, p: nat, sep: byte, acceptMask: bool)
    returns (ra: seq<byte>, rb: seq<byte>)
    requires |a| == |b| == 6 && i <= 6 && a[..i] == b[..i] && (sep == 0 || IsSeparator(sep))
    ensures Alike(SlowFrom(buf, a, i, p, sep, acceptMask), SlowFrom(buf, b, i, p, sep, acceptMask), a, b, ra, rb)
    decreases 6 - i
  {
    hide SlowFrom, Strtoul16, Alike;
    if i < 6 && GoesOn(buf, p, sep) {
      var num, q := Strtoul16(buf, p).0 as byte, Strtoul16(buf, p).1;
      SameNext(a, b, i, num);
      GoingStep(buf, a, i, p, sep, acceptMask);
      GoingStep(buf, b, i, p, sep, acceptMask);
      ra, rb := ReadsAlike(buf, a[i := num], b[i := num], i + 1, q + 1, At(buf, q), acceptMask);
      AlikeBefore(buf, a, b, ra, rb, i, num, q + 1, At(buf, q), acceptMask);
    } else {
      ra, rb := StopsAlike(buf, a, b, i, p, sep, acceptMask);
    }
  }

  lemma GoingStep(buf: seq<byte>, addr: seq<byte>, i: nat, p: nat, sep: byte, acceptMask: bool)
    requires |addr| == 6 && i < 6 && GoesOn(buf, p, sep)
    ensures var (num, e) := Strtoul16(buf, p);
            SlowFrom(buf, addr, i, p, sep, acceptMask) ==
            SlowFrom(buf, addr[i := num as byte], i + 1, e + 1, At(buf, e), acceptMask)
  {
    hide Strtoul16, MaskAddr, Digits;
  }

  lemma StopsAlike(buf: seq<byte>, a: seq<byte>, b: seq<byte>, i: nat, p: nat, sep: byte, acceptMask: bool)
    returns (ra: seq<byte>, rb: seq<byte>)
    requires |a| == |b| == 6 && i <= 6 && a[..i] == b[..i] && (sep == 0 || IsSeparator(sep))
    requires i == 6 || !GoesOn(buf, p, sep)
    ensures Alike(SlowFrom(buf, a, i, p, sep, acceptMask), SlowFrom(buf, b, i, p, sep, acceptMask), a, b, ra, rb)
  {
    hide MaskAddr, Strtoul16, Digits;
    ra, rb := a, b;
    if i < 6 && IsHex(At(buf, p)) && Strtoul16(buf, p).0 <= 0xFF {
      var num := Strtoul16(buf, p).0 as byte;
      SameNext(a, b, i, num);
      ra, rb := a[i := num], b[i := num];
    }
  }

  /** What holds from the next octet on holds from this one. */
  lemma AlikeBefore(buf: seq<byte>, a: seq<byte>, b: seq<byte>, ra: seq<byte>, rb: seq<byte>,
                    i: nat, num: byte, p: nat, sep: byte, acceptMask: bool)
    requires |a| == |b| == 6 && i < 6
    requires Alike(SlowFrom(buf, a[i := num], i + 1, p, sep, acceptMask), SlowFrom(buf, b[i := num], i + 1, p, sep, acceptMask),
                   a[i := num], b[i := num], ra, rb)
    ensures Alike(SlowFrom(buf, a[i := num], i + 1, p, sep, acceptMask), SlowFrom(buf, b[i := num], i + 1, p, sep, acceptMask),
                  a, b, ra, rb)
  {
    hide SlowFrom, LeavesMasked, ReadOver;
    var o := SlowFrom(buf, a[i := num], i + 1, p, sep, acceptMask);
    if o.ok {
      OctetsReach(buf, a[i := num], i + 1, p, sep, acceptMask);
      NextOver(a, i, num, ra, o.octets);
      NextOver(b, i, num, rb, o.octets);
    }
  }

  lemma SameNext(a: seq<byte>, b: seq<byte>, i: nat, num: byte)
    requires |a| == |b| == 6 && i < 6 && a[..i] == b[..i]
    ensures a[i := num][..i + 1] == b[i := num][..i + 1]
    ensures a[i := num][i + 1..] == a[i + 1..] && b[i := num][i + 1..] == b[i + 1..]
  {
    assert a[i := num][..i + 1] == a[..i] + [num] && b[i := num][..i + 1] == b[..i] + [num];
  }

  lemma NextOver(a: seq<byte>, i: nat, num: byte, read: seq<byte>, octets: nat)
    requires |a| == 6 && i < octets <= 6 && ReadOver(read, a[i := num], octets)
    ensures ReadOver(read, a, octets)
  {
    assert a[i := num][octets..] == a[octets..];
  }

  lemma {:induction false} OctetsReach(buf: seq<byte>, a: seq<byte>, i: nat, p: nat, sep: byte, acceptMask: bool)
    requires |a| == 6 && i <= 6 && SlowFrom(buf, a, i, p, sep, acceptMask).ok
    ensures i <= SlowFrom(buf, a, i, p, sep, acceptMask).octets <= 6
    decreases 6 - i
  {
    hide MaskAddr, Strtoul16, Digits, SlowMask;
    if i < 6 && IsHex(At(buf, p)) {
      var (num, q) := Strtoul16(buf, p);
      var c := At(buf, q);
      if num <= 0xFF && c == SLASH {
        MaskOctets(buf, a[i := num as byte], i + 1, q + 1, acceptMask);
      } else if num <= 0xFF && c != 0 && !(if sep == 0 then c != COLON && c != DASH && c != DOT else c != sep) {
        OctetsReach(buf, a[i := num as byte], i + 1, q + 1, c, acceptMask);
      }
    }
  }

  lemma MaskOctets(buf: seq<byte>, addr: seq<byte>, octets: nat, p: nat, acceptMask: bool)
    requires |addr| == 6
    ensures SlowMask(buf, addr, octets, p, acceptMask).octets == octets
  {
    hide Digits, MaskAddr;
  }

  /** Every earlier content of the buffer gives the same address. */
  ghost predicate SameForAll(buf: seq<byte>, addr: seq<byte>, acceptMask: bool)
    requires |addr| == 6
  {
    forall other: seq<byte> | |other| == 6 :: Slow(buf, other, acceptMask).addr == Slow(buf, addr, acceptMask).addr
  }

  /**
   The slow parser leaves octets it has not read in the caller's buffer, and masks them
   with the others.  What an accepted entry leaves is the same for every earlier content of
   the buffer exactly if all six octets were given, or a mask that does not reach beyond
   those given; a manufacturer's three octets, whose mask is 0, are followed by old ones.
   */
  lemma {:induction false} StaleOctets(buf: seq<byte>, addr: seq<byte>, acceptMask: bool)
    requires |addr| == 6 && Slow(buf, addr, acceptMask).ok
    ensures var o := Slow(buf, addr, acceptMask);
            && o.octets <= 6
            && (SameForAll(buf, addr, acceptMask) <==>
                  o.octets == 6 || (o.mask.Some? && 0 < o.mask.value <= 8 * o.octets))
  {
    hide SlowFrom, MaskAddr;
    var o := Slow(buf, addr, acceptMask);
    OctetsReach(buf, addr, 0, 0, 0, acceptMask);
    if o.octets == 6 || (o.mask.Some? && 0 < o.mask.value <= 8 * o.octets) {
      forall other: seq<byte> | |other| == 6
        ensures Slow(buf, other, acceptMask).addr == o.addr
      {
        var ra, rb := ReadsAlike(buf, addr, other, 0, 0, 0, acceptMask);
        if o.octets == 6 {
          assert ra == ra[..6] == rb[..6] == rb;
        } else {
          MaskHidesRest(ra, rb, o.octets, o.mask.value);
        }
      }
    } else {
      var zero, full := addr[o.octets := 0], addr[o.octets := 0xFF];
      var r0, r1 := ReadsAlike(buf, addr, zero, 0, 0, 0, acceptMask);
      r0, r1 := ReadsAlike(buf, zero, full, 0, 0, 0, acceptMask);
      StaleShows(zero, full, r0, r1, o.octets, if o.mask.Some? then o.mask.value else 0);
      assert Slow(buf, zero, acceptMask).addr != Slow(buf, full, acceptMask).addr;
    }
  }

  /** "00:11:22" */
  lemma {:induction false} VendorKeepsOldOctets(addr: seq<byte>)
    requires |addr| == 6
    ensures Slow([48, 48, 58, 49, 49, 58, 50, 50], addr, true) == Outcome(true, [0x00, 0x11, 0x22] + addr[3..], Some(0), 3)
  {
    FastRefinesSlow([48, 48, 58, 49, 49, 58, 50, 50], addr, true);
  }

  lemma MaskHidesRest(a: seq<byte>, b: seq<byte>, octets: nat, m: nat)
    requires |a| == |b| == 6 && octets <= 6 && a[..octets] == b[..octets] && m <= 8 * octets
    ensures MaskAddr(a, m) == MaskAddr(b, m)
  {
    hide MaskOctet;
    forall k: nat | k < 6
      ensures MaskedOctet(a, m, k) == MaskedOctet(b, m, k)
    {
      if k < octets {
        assert a[k] == a[..octets][k] == b[..octets][k];
      }
    }
  }

  lemma StaleShows(zero: seq<byte>, full: seq<byte>, r0: seq<byte>, r1: seq<byte>, octets: nat, m: nat)
    requires octets < 6 && ReadOver(r0, zero, octets) && ReadOver(r1, full, octets)
    requires zero[octets] == 0 && full[octets] == 0xFF && (m == 0 || 8 * octets < m < 48)
    ensures r0 != r1 && (m > 0 ==> MaskAddr(r0, m) != MaskAddr(r1, m))
  {
    hide MaskOctet;
    assert r0[octets] == r0[octets..][0] == 0 && r1[octets] == r1[octets..][0] == 0xFF;
    if m > 0 {
      StaleOctetShows(m, octets);
      assert MaskAddr(r0, m)[octets] == MaskedOctet(r0, m, octets);
      assert MaskAddr(r1, m)[octets] == MaskedOctet(r1, m, octets);
    }
  }

  lemma StaleOctetShows(m: nat, k: nat)
    requires 8 * k < m < 48
    ensures m < 8 * k + 8 ==> MaskOctet(0, m - 8 * k) != MaskOctet(0xFF, m - 8 * k)
  {
    hide MaskOctet;
    if m < 8 * k + 8 {
      var n := m - 8 * k;
      ZeroMasked(n);
      MaskOctetTwice(0xFF, n, 1);
      MaskOctetFirst(0xFF);
      MaskOctetFirst(0);
    }
  }

  /* ---------- a separator after the sixth octet ---------- */

  /** The digits read depend on nothing behind the character that ends them. */
  lemma {:induction false} DigitsLocal(buf: seq<byte>, other: seq<byte>, q: nat, i: nat, base: nat, acc: nat)
    requires (base == 10 || base == 16) && q <= |buf| && q <= |other| && buf[..q] == other[..q]
    requires Digits(buf, i, base, acc).1 < q
    ensures Digits(other, i, base, acc) == Digits(buf, i, base, acc)
    decreases |buf| - i
  {
    assert buf[i] == buf[..q][i] == other[..q][i];
    if if base == 16 then IsHex(buf[i]) else IsDigit(buf[i]) {
      DigitsLocal(buf, other, q, i + 1, base, base * acc + HexValue(buf[i]));
    }
  }

  predicate IsSeparator(c: byte) {
    c == COLON || c == DASH || c == DOT
  }

  lemma Strtoul16Local(buf: seq<byte>, other: seq<byte>, q: nat, i: nat)
    requires q <= |buf| && q <= |other| && buf[..q] == other[..q] && IsHex(At(buf, i))
    requires Strtoul16(buf, i).1 < q && IsSeparator(At(buf, Strtoul16(buf, i).1))
    ensures At(other, i) == At(buf, i) && Strtoul16(other, i) == Strtoul16(buf, i)
  {
    SamePrefix(buf, other, q);
    if At(buf, i) == 48 && (At(buf, i + 1) == 120 || At(buf, i + 1) == 88) {
      DigitsLocal(buf, other, q, i + 2, 16, 0);
    } else {
      DigitsLocal(buf, other, q, i + 1, 16, HexValue(At(buf, i)));
    }
  }

  lemma SamePrefix(buf: seq<byte>, other: seq<byte>, q: nat)
    requires q <= |buf| && q <= |other| && buf[..q] == other[..q]
    ensures forall k: nat | k < q :: At(buf, k) == At(other, k)
  {
    forall k: nat | k < q
      ensures At(buf, k) == At(other, k)
    {
      assert buf[k] == buf[..q][k] == other[..q][k];
    }
  }

  /** An octet and a separator that may follow it. */
  predicate GoesOn(buf: seq<byte>, p: nat, sep: byte) {
    IsHex(At(buf, p)) &&
    var (num, e) := Strtoul16(buf, p);
    num <= 0xFF && IsSeparator(At(buf, e)) && (sep == 0 || sep == At(buf, e))
  }

  lemma GoesOnLocal(buf: seq<byte>, other: seq<byte>, q: nat, p: nat, sep: byte)
    requires q <= |buf| && q <= |other| && buf[..q] == other[..q]
    requires GoesOn(buf, p, sep) && Strtoul16(buf, p).1 < q
    ensures GoesOn(other, p, sep) && Strtoul16(other, p) == Strtoul16(buf, p)
    ensures At(other, Strtoul16(buf, p).1) == At(buf, Strtoul16(buf, p).1)
  {
    hide Strtoul16;
    Strtoul16Local(buf, other, q, p);
    SamePrefix(buf, other, q);
  }

  /** From octet i at p on, every octet up to the sixth is followed by a separator, the same one throughout. */
  predicate OctetsAndSeparators(buf: seq<byte>, i: nat, p: nat, sep: byte)
    requires i <= 6
    decreases 6 - i
  {
    i == 6 ||
    (GoesOn(buf, p, sep) &&
     var e := Strtoul16(buf, p).1;
     OctetsAndSeparators(buf, i + 1, e + 1, At(buf, e)))
  }

  /** An octet at the end of the string. */
  predicate EndsAfter(buf: seq<byte>, p: nat) {
    IsHex(At(buf, p)) && Strtoul16(buf, p).0 <= 0xFF && At(buf, Strtoul16(buf, p).1) == 0
  }

  /** From octet i at p on, the octets up to the sixth with separators between them, and the end of the string. */
  predicate OctetsThenEnd(buf: seq<byte>, i: nat, p: nat, sep: byte)
    requires i < 6
    decreases 6 - i
  {
    if i == 5 then EndsAfter(buf, p)
    else
      GoesOn(buf, p, sep) &&
      var e := Strtoul16(buf, p).1;
      OctetsThenEnd(buf, i + 1, e + 1, At(buf, e))
  }

  lemma SixRead(addr: seq<byte>, p: nat, sep: byte, acceptMask: bool)
    requires |addr| == 6
    ensures forall buf :: SlowFrom(buf, addr, 6, p, sep, acceptMask) == Outcome(true, addr, None, 6)
  {
  }

  lemma StoppingHere(buf: seq<byte>, addr: seq<byte>, i: nat, p: nat, sep: byte, acceptMask: bool)
    requires |addr| == 6 && i < 6 && (sep == 0 || IsSeparator(sep)) && !GoesOn(buf, p, sep)
    ensures acceptMask && SlowFrom(buf, addr, i, p, sep, acceptMask).ok ==>
              SlowFrom(buf, addr, i, p, sep, acceptMask).mask.Some?
    ensures !acceptMask ==> (SlowFrom(buf, addr, i, p, sep, acceptMask).ok <==> i == 5 && EndsAfter(buf, p))
  {
    hide Strtoul16, MaskAddr, Digits;
  }

  /** Allowing masks, the entries accepted without storing one are those with a separator after each of six octets. */
  lemma {:induction false} AcceptedWithoutMask(buf: seq<byte>, addr: seq<byte>, i: nat, p: nat, sep: byte)
    requires |addr| == 6 && i <= 6 && (sep == 0 || IsSeparator(sep))
    ensures var o := SlowFrom(buf, addr, i, p, sep, true);
            o.ok && o.mask.None? <==> OctetsAndSeparators(buf, i, p, sep)
    decreases 6 - i
  {
    hide Strtoul16, SlowFrom, IsHex;
    if i == 6 {
      SixRead(addr, p, sep, true);
    } else if GoesOn(buf, p, sep) {
      GoingStep(buf, addr, i, p, sep, true);
      var (num, e) := Strtoul16(buf, p);
      AcceptedWithoutMask(buf, addr[i := num as byte], i + 1, e + 1, At(buf, e));
    } else {
      StoppingHere(buf, addr, i, p, sep, true);
    }
  }

  /** Not allowing masks, the accepted entries are those, and six octets with separators between them alone. */
  lemma {:induction false} AcceptedNoMasks(buf: seq<byte>, addr: seq<byte>, i: nat, p: nat, sep: byte)
    requires |addr| == 6 && i <= 6 && (sep == 0 || IsSeparator(sep))
    ensures SlowFrom(buf, addr, i, p, sep, false).ok <==>
            OctetsAndSeparators(buf, i, p, sep) || (i < 6 && OctetsThenEnd(buf, i, p, sep))
    decreases 6 - i
  {
    hide Strtoul16, SlowFrom, IsHex;
    if i == 6 {
      SixRead(addr, p, sep, false);
    } else if GoesOn(buf, p, sep) {
      GoingStep(buf, addr, i, p, sep, false);
      var (num, e) := Strtoul16(buf, p);
      AcceptedNoMasks(buf, addr[i := num as byte], i + 1, e + 1, At(buf, e));
      if i == 5 {
        SeparatorIsNoEnd(buf, p, sep);
      }
    } else {
      StoppingHere(buf, addr, i, p, sep, false);
    }
  }

  lemma SeparatorIsNoEnd(buf: seq<byte>, p: nat, sep: byte)
    requires GoesOn(buf, p, sep)
    ensures !EndsAfter(buf, p)
  {
    hide Strtoul16;
  }

  /** Where the slow parser stops reading octets and separators. */
  lemma {:induction false} StopsAfterSeparator(
      buf: seq<byte>, addr: seq<byte>, i: nat, p: nat, sep: byte, acceptMask: bool) returns (q: nat)
    requires |addr| == 6 && i <= 6 && p <= |buf| && OctetsAndSeparators(buf, i, p, sep)
    requires (i == 0 <==> p == 0) && (0 < p ==> IsSeparator(At(buf, p - 1)))
    ensures p <= q <= |buf| && 0 < q && IsSeparator(At(buf, q - 1))
    ensures var o := SlowFrom(buf, addr, i, p, sep, acceptMask);
            o.ok && o.mask.None? && o.octets == 6 &&
            forall other | q <= |other| && other[..q] == buf[..q] ::
              SlowFrom(other, addr, i, p, sep, acceptMask) == o
    decreases 6 - i
  {
    hide Strtoul16, SlowFrom, IsHex, HexValue;
    if i == 6 {
      SixRead(addr, p, sep, acceptMask);
      q := p;
    } else {
      GoingStep(buf, addr, i, p, sep, acceptMask);
      var (num, e) := Strtoul16(buf, p);
      q := StopsAfterSeparator(buf, addr[i := num as byte], i + 1, e + 1, At(buf, e), acceptMask);
      forall other: seq<byte> | q <= |other| && other[..q] == buf[..q]
        ensures SlowFrom(other, addr, i, p, sep, acceptMask) == SlowFrom(buf, addr, i, p, sep, acceptMask)
      {
        GoesOnLocal(buf, other, q, p, sep);
        GoingStep(other, addr, i, p, sep, acceptMask);
      }
    }
  }

  /** A separator ends at q, and no text behind it changes the result. */
  ghost predicate IgnoredFrom(buf: seq<byte>, addr: seq<byte>, acceptMask: bool, q: nat)
    requires |addr| == 6 && q <= |buf|
  {
    0 < q && IsSeparator(buf[q - 1]) &&
    forall other: seq<byte> | q <= |other| && other[..q] == buf[..q] ::
      Slow(other, addr, acceptMask) == Slow(buf, addr, acceptMask)
  }

  /**
   "An address that consists of exactly 6 bytes" is what the parser is to accept when masks
   are not allowed.  It accepts exactly those, and those with one more separator behind the
   last octet.  Masks allowed, it accepts these too, and nothing else without storing a mask.
   In neither case does it look at what follows that separator.
   */
  lemma {:induction false} TrailingTextIgnored(buf: seq<byte>, addr: seq<byte>, acceptMask: bool)
    requires |addr| == 6
    ensures Slow(buf, addr, false).ok <==> OctetsThenEnd(buf, 0, 0, 0) || OctetsAndSeparators(buf, 0, 0, 0)
    ensures Slow(buf, addr, true).ok && Slow(buf, addr, true).mask.None? <==> OctetsAndSeparators(buf, 0, 0, 0)
    ensures OctetsAndSeparators(buf, 0, 0, 0) ==>
              && !OctetsThenEnd(buf, 0, 0, 0)
              && Slow(buf, addr, acceptMask).ok && Slow(buf, addr, acceptMask).octets == 6
              && exists q: nat | 0 < q <= |buf| :: IgnoredFrom(buf, addr, acceptMask, q)
  {
    hide SlowFrom, OctetsAndSeparators, OctetsThenEnd;
    AcceptedNoMasks(buf, addr, 0, 0, 0);
    AcceptedWithoutMask(buf, addr, 0, 0, 0);
    if OctetsAndSeparators(buf, 0, 0, 0) {
      NotBoth(buf, 0, 0, 0);
      var q := StopsAfterSeparator(buf, addr, 0, 0, 0, acceptMask);
      assert IgnoredFrom(buf, addr, acceptMask, q);
    }
  }

  lemma {:induction false} NotBoth(buf: seq<byte>, i: nat, p: nat, sep: byte)
    requires i < 6 && OctetsAndSeparators(buf, i, p, sep)
    ensures !OctetsThenEnd(buf, i, p, sep)
    decreases 6 - i
  {
    hide Strtoul16;
    SeparatorIsNoEnd(buf, p, sep);
    if i < 5 {
      var e := Strtoul16(buf, p).1;
      NotBoth(buf, i + 1, e + 1, At(buf, e));
    }
  }
}
