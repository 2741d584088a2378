/**
 The two decoders of packed 7-bit text in charsets.c: GSM 7-bit default alphabet
 text, packed least significant bit first, and ASCII packed most significant bit
 first.  Each is proved to read the septets of the bit stream, and so to undo packing.

 A byte is its eight bits, least significant first, so that shifts and masks by a
 variable amount are moves of bits.
 */
module SevenBit {
  type Unichar = int

  const UNREPL: Unichar := 0xFFFD

  /* ---------- guint8 ---------- */

  datatype Byte = Byte(b0: bool, b1: bool, b2: bool, b3: bool, b4: bool, b5: bool, b6: bool, b7: bool) {
    /** Bits beyond the byte are zero. */
    function Bit(i: int): bool {
      if i == 0 then b0 else if i == 1 then b1 else if i == 2 then b2 else if i == 3 then b3
      else if i == 4 then b4 else if i == 5 then b5 else if i == 6 then b6 else i == 7 && b7
    }

    function Value(): (v: nat)
      ensures v < 256
    {
      (if b0 then 1 else 0) + (if b1 then 2 else 0) + (if b2 then 4 else 0) + (if b3 then 8 else 0) +
      (if b4 then 16 else 0) + (if b5 then 32 else 0) + (if b6 then 64 else 0) + (if b7 then 128 else 0)
    }

    function ShiftRight(n: nat): Byte {
      FromBits(i => Bit(i + n))
    }

    /** The low eight bits of this << n. */
    function ShiftLeft(n: nat): Byte {
      FromBits(i => Bit(i - n))
    }

    /** this & ((1 << n) - 1) */
    function LowBits(n: nat): Byte {
      FromBits(i => i < n && Bit(i))
    }

    function Or(other: Byte): Byte {
      FromBits(i => Bit(i) || other.Bit(i))
    }
  }

  function FromBits(f: int -> bool): Byte {
    Byte(f(0), f(1), f(2), f(3), f(4), f(5), f(6), f(7))
  }

  lemma FromBitsAt(f: int -> bool, i: int)
    ensures FromBits(f).Bit(i) == (0 <= i < 8 && f(i))
  {
  }

  lemma SameBits(a: Byte, b: Byte)
    requires forall i | 0 <= i < 8 :: a.Bit(i) == b.Bit(i)
    ensures a == b
  {
    assert a.Bit(0) == b.Bit(0) && a.Bit(1) == b.Bit(1) && a.Bit(2) == b.Bit(2) && a.Bit(3) == b.Bit(3)
        && a.Bit(4) == b.Bit(4) && a.Bit(5) == b.Bit(5) && a.Bit(6) == b.Bit(6) && a.Bit(7) == b.Bit(7);
  }

  const ZERO := Byte(false, false, false, false, false, false, false, false)

  /* ---------- bytes as a stream of bits ---------- */

  datatype BitOrder = LsbFirst | MsbFirst

  /** The i-th bit of a byte in the given order. */
  function NthBit(order: BitOrder, b: Byte, i: nat): bool {
    b.Bit(if order.LsbFirst? then i else 7 - i)
  }

  function Stream(order: BitOrder, data: seq<Byte>): (r: seq<bool>)
    ensures |r| == 8 * |data|
  {
    if data == [] then []
    else Stream(order, data[..|data| - 1]) + seq(8, i requires i >= 0 => NthBit(order, data[|data| - 1], i))
  }

  lemma {:induction false} StreamAt(order: BitOrder, data: seq<Byte>, k: nat, i: nat)
    requires k < |data| && i < 8
    ensures Stream(order, data)[8 * k + i] == NthBit(order, data[k], i)
  {
    if k < |data| - 1 {
      StreamAt(order, data[..|data| - 1], k, i);
    }
  }

  /** The 7-bit number at bit p of a stream; its bits come in the order of the stream. */
  function SeptetAt(order: BitOrder, s: seq<bool>, p: nat): Byte
    requires p + 7 <= |s|
  {
    FromBits(i => 0 <= i < 7 && s[if order.LsbFirst? then p + i else p + 6 - i])
  }

  /** The n septets from bit `off` on. */
  function Septets(order: BitOrder, s: seq<bool>, off: nat, n: nat): (r: seq<Byte>)
    requires off + 7 * n <= |s|
    ensures |r| == n
  {
    if n == 0 then [] else Septets(order, s, off, n - 1) + [SeptetAt(order, s, off + 7 * (n - 1))]
  }

  lemma {:induction false} SeptetsAt(order: BitOrder, s: seq<bool>, off: nat, n: nat, i: nat)
    requires i < n && off + 7 * n <= |s|
    ensures Septets(order, s, off, n)[i] == SeptetAt(order, s, off + 7 * i)
  {
    if i < n - 1 {
      SeptetsAt(order, s, off, n - 1, i);
    }
  }

  /** The offset the decoders work with: bit 7 of the first byte is taken for bit 0. */
  function EffectiveOffset(bitOffset: int): nat {
    if bitOffset % 8 == 7 then 0 else bitOffset % 8
  }

  function BytesFor(bits: nat): (r: nat)
    ensures bits <= 8 * r < bits + 8
  {
    (bits + 7) / 8
  }

  lemma BytesForIs(bits: nat, r: nat)
    requires bits <= 8 * r < bits + 8
    ensures BytesFor(bits) == r
  {
  }

  /** Character count as the loops see it: a negative one is none. */
  function CharCount(noOfChars: int): nat {
    if noOfChars < 0 then 0 else noOfChars
  }

  /* ---------- least significant bit first ---------- */

  /** The code point the loop assembles from the next byte and what is left of the previous one. */
  function OutLsb(inByte: Byte, bits: nat, rest: Byte): Byte
    requires bits <= 7
  {
    inByte.LowBits(bits).ShiftLeft(7 - bits).Or(rest)
  }

  /** b >> bits */
  function RestLsb(b: Byte, bits: nat): Byte {
    b.ShiftRight(bits)
  }

  lemma RestLsbBit(b: Byte, bits: nat, i: nat)
    requires i < 8
    ensures RestLsb(b, bits).Bit(i) == b.Bit(i + bits)
  {
  }

  lemma OutLsbBit(inByte: Byte, bits: nat, rest: Byte, i: nat)
    requires bits <= 7 && i < 8
    ensures OutLsb(inByte, bits, rest).Bit(i) == ((7 - bits <= i < 7 && inByte.Bit(i + bits - 7)) || rest.Bit(i))
  {
    var low := inByte.LowBits(bits);
    FromBitsAt(j => j < bits && inByte.Bit(j), i + bits - 7);
    FromBitsAt(j => low.Bit(j - (7 - bits)), i);
    var shifted := low.ShiftLeft(7 - bits);
    FromBitsAt(j => shifted.Bit(j) || rest.Bit(j), i);
  }

  lemma SeptetBit(order: BitOrder, s: seq<bool>, p: nat, i: nat)
    requires p + 7 <= |s| && i < 8
    ensures SeptetAt(order, s, p).Bit(i) == (i < 7 && s[if order.LsbFirst? then p + i else p + 6 - i])
  {
    FromBitsAt(j => 0 <= j < 7 && s[if order.LsbFirst? then p + j else p + 6 - j], i);
  }

  /** It is the next septet of the stream. */
  lemma {:induction false} NextLsb(data: seq<Byte>, ptr: nat, bits: nat, rest: Byte)
    requires ptr < |data| && 1 <= bits <= 7
    requires if bits == 7 then rest == ZERO else ptr > 0 && rest == RestLsb(data[ptr - 1], bits + 1)
    ensures OutLsb(data[ptr], bits, rest) == SeptetAt(LsbFirst, Stream(LsbFirst, data), 8 * ptr + bits - 7)
  {
    hide Stream, SeptetAt, OutLsb, RestLsb;
    var s, p := Stream(LsbFirst, data), 8 * ptr + bits - 7;
    forall i: nat | i < 8 ensures OutLsb(data[ptr], bits, rest).Bit(i) == SeptetAt(LsbFirst, s, p).Bit(i) {
      OutLsbBit(data[ptr], bits, rest, i);
      SeptetBit(LsbFirst, s, p, i);
      if bits < 7 {
        RestLsbBit(data[ptr - 1], bits + 1, i);
      }
      if 7 - bits <= i < 7 {
        StreamAt(LsbFirst, data, ptr, i + bits - 7);
      } else if i < 7 - bits {
        StreamAt(LsbFirst, data, ptr - 1, i + bits + 1);
      }
    }
    SameBits(OutLsb(data[ptr], bits, rest), SeptetAt(LsbFirst, s, p));
  }

  /** With one bit taken from a byte, the other seven are a septet. */
  lemma LastLsb(data: seq<Byte>, ptr: nat)
    requires ptr < |data|
    ensures RestLsb(data[ptr], 1) == SeptetAt(LsbFirst, Stream(LsbFirst, data), 8 * ptr + 1)
  {
    hide Stream, SeptetAt, RestLsb;
    var s, b := Stream(LsbFirst, data), data[ptr];
    forall i: nat | i < 8 ensures RestLsb(b, 1).Bit(i) == SeptetAt(LsbFirst, s, 8 * ptr + 1).Bit(i) {
      RestLsbBit(b, 1, i);
      SeptetBit(LsbFirst, s, 8 * ptr + 1, i);
      if i < 7 {
        StreamAt(LsbFirst, data, ptr, i + 1);
      }
    }
    SameBits(RestLsb(b, 1), SeptetAt(LsbFirst, s, 8 * ptr + 1));
  }

  method GetTs23038SevenBitsString(data: seq<Byte>, bitOffset: int, noOfChars: int)
    returns (text: seq<Unichar>, bytesRead: nat)
    requires EffectiveOffset(bitOffset) + 7 * CharCount(noOfChars) <= 8 * |data|
    ensures text == TextOf(Septets(LsbFirst, Stream(LsbFirst, data), EffectiveOffset(bitOffset), CharCount(noOfChars)))
    ensures bytesRead ==
            if noOfChars <= 0 then 0 else BytesFor(EffectiveOffset(bitOffset) + 7 * CharCount(noOfChars))
  {
    hide Stream, Septets, SeptetAt, HandleAll, HandleChar, OutLsb, RestLsb, BytesFor;
    ghost var stream := Stream(LsbFirst, data);
    ghost var off := EffectiveOffset(bitOffset);
    NoneYet(LsbFirst, stream, off);
    var strbuf: seq<Unichar> := [];
    var rest: Byte := ZERO;
    var sawEscape := false;
    var bits := bitOffset % 8;
    if bits == 0 {
      bits := 7;
    }
    var ptr, charCount := 0, 0;
    while charCount < noOfChars
      invariant 0 <= charCount <= CharCount(noOfChars)
      invariant ptr == 0 ==> charCount == 0 && rest == ZERO && bits == if off == 0 then 7 else off
      invariant ptr > 0 ==> 0 <= bits <= 7 && off + 7 * charCount == 8 * ptr - 7 + bits
      invariant bits == 0 ==> charCount == noOfChars
      invariant bits == 7 ==> rest == ZERO
      invariant ptr <= |data| && (noOfChars <= 0 ==> ptr == 0)
      invariant ptr > 0 && 1 <= bits <= 6 ==> rest == RestLsb(data[ptr - 1], bits + 1)
      invariant strbuf == HandleAll(Septets(LsbFirst, stream, off, charCount)).0
      invariant sawEscape == HandleAll(Septets(LsbFirst, stream, off, charCount)).1
      decreases noOfChars - charCount, if ptr == 0 then 1 else 0
    {
      var inByte := data[ptr];
      var outByte := OutLsb(inByte, bits, rest);
      if ptr != 0 || bits == 7 {
        NextLsb(data, ptr, bits, rest);
        OneMore(LsbFirst, stream, off, charCount);
        var h := HandleChar(strbuf, outByte, sawEscape);
        strbuf, sawEscape := h.0, h.1;
        charCount := charCount + 1;
      }
      rest := RestLsb(inByte, bits);
      if bits == 1 && charCount < noOfChars {
        LastLsb(data, ptr);
        OneMore(LsbFirst, stream, off, charCount);
        var h := HandleChar(strbuf, rest, sawEscape);
        strbuf, sawEscape := h.0, h.1;
        charCount := charCount + 1;
        bits := 7;
        rest := ZERO;
      } else {
        bits := bits - 1;
      }
      ptr := ptr + 1;
    }
    if sawEscape {
      strbuf := strbuf + [UNREPL];
    }
    if noOfChars > 0 {
      BytesForIs(off + 7 * noOfChars, ptr);
    }
    return strbuf, ptr;
  }

  lemma NoneYet(order: BitOrder, s: seq<bool>, off: nat)
    requires off <= |s|
    ensures HandleAll(Septets(order, s, off, 0)) == ([], false)
  {
  }

  lemma OneMore(order: BitOrder, s: seq<bool>, off: nat, n: nat)
    requires off + 7 * n + 7 <= |s|
    ensures var h := HandleAll(Septets(order, s, off, n));
            HandleAll(Septets(order, s, off, n + 1)) == HandleChar(h.0, SeptetAt(order, s, off + 7 * n), h.1)
  {
    HandleLast(Septets(order, s, off, n), SeptetAt(order, s, off + 7 * n));
  }

  /* ---------- most significant bit first ---------- */

  function OutMsb(inByte: Byte, bits: nat, rest: Byte): Byte
    requires bits <= 7
  {
    inByte.ShiftRight(8 - bits).Or(rest)
  }

  lemma OutMsbBit(inByte: Byte, bits: nat, rest: Byte, i: nat)
    requires bits <= 7 && i < 8
    ensures OutMsb(inByte, bits, rest).Bit(i) == (inByte.Bit(i + 8 - bits) || rest.Bit(i))
  {
    var shifted := inByte.ShiftRight(8 - bits);
    FromBitsAt(j => inByte.Bit(j + (8 - bits)), i);
    FromBitsAt(j => shifted.Bit(j) || rest.Bit(j), i);
  }

  /** (b << bits) & 0x7f */
  function RestMsb(b: Byte, bits: nat): Byte {
    b.ShiftLeft(bits).LowBits(7)
  }

  lemma RestMsbBit(b: Byte, bits: nat, i: nat)
    requires i < 8
    ensures RestMsb(b, bits).Bit(i) == (i < 7 && b.Bit(i - bits))
  {
    var shifted := b.ShiftLeft(bits);
    FromBitsAt(j => b.Bit(j - bits), i);
    FromBitsAt(j => j < 7 && shifted.Bit(j), i);
  }

  lemma {:induction false} NextMsb(data: seq<Byte>, ptr: nat, bits: nat, rest: Byte)
    requires ptr < |data| && 1 <= bits <= 7
    requires if bits == 7 then rest == ZERO else ptr > 0 && rest == RestMsb(data[ptr - 1], bits)
    ensures OutMsb(data[ptr], bits, rest) == SeptetAt(MsbFirst, Stream(MsbFirst, data), 8 * ptr + bits - 7)
  {
    hide Stream, SeptetAt, OutMsb, RestMsb;
    var s, p := Stream(MsbFirst, data), 8 * ptr + bits - 7;
    forall i: nat | i < 8 ensures OutMsb(data[ptr], bits, rest).Bit(i) == SeptetAt(MsbFirst, s, p).Bit(i) {
      OutMsbBit(data[ptr], bits, rest, i);
      SeptetBit(MsbFirst, s, p, i);
      if bits < 7 {
        RestMsbBit(data[ptr - 1], bits, i);
      }
      if i < bits {
        StreamAt(MsbFirst, data, ptr, bits - 1 - i);
      } else if i < 7 {
        StreamAt(MsbFirst, data, ptr - 1, bits + 7 - i);
      }
    }
    SameBits(OutMsb(data[ptr], bits, rest), SeptetAt(MsbFirst, s, p));
  }

  lemma LastMsb(data: seq<Byte>, ptr: nat)
    requires ptr < |data|
    ensures RestMsb(data[ptr], 0) == SeptetAt(MsbFirst, Stream(MsbFirst, data), 8 * ptr + 1)
  {
    hide Stream, SeptetAt, RestMsb;
    var s, b := Stream(MsbFirst, data), data[ptr];
    forall i: nat | i < 8 ensures RestMsb(b, 0).Bit(i) == SeptetAt(MsbFirst, s, 8 * ptr + 1).Bit(i) {
      RestMsbBit(b, 0, i);
      SeptetBit(MsbFirst, s, 8 * ptr + 1, i);
      if i < 7 {
        StreamAt(MsbFirst, data, ptr, 7 - i);
      }
    }
    SameBits(RestMsb(b, 0), SeptetAt(MsbFirst, s, 8 * ptr + 1));
  }

  lemma NoSeptets(order: BitOrder, s: seq<bool>, off: nat)
    requires off <= |s|
    ensures Septets(order, s, off, 0) == []
  {
  }

  lemma OneMoreSeptet(order: BitOrder, s: seq<bool>, off: nat, n: nat)
    requires off + 7 * n + 7 <= |s|
    ensures Septets(order, s, off, n + 1) == Septets(order, s, off, n) + [SeptetAt(order, s, off + 7 * n)]
  {
  }

  method GetAsciiSevenBitsString(data: seq<Byte>, bitOffset: int, noOfChars: int)
    returns (text: seq<Byte>, bytesRead: nat)
    requires EffectiveOffset(bitOffset) + 7 * CharCount(noOfChars) <= 8 * |data|
    ensures text == Septets(MsbFirst, Stream(MsbFirst, data), EffectiveOffset(bitOffset), CharCount(noOfChars))
    ensures bytesRead ==
            if noOfChars <= 0 then 0 else BytesFor(EffectiveOffset(bitOffset) + 7 * CharCount(noOfChars))
  {
    hide Stream, Septets, SeptetAt, OutMsb, RestMsb, BytesFor;
    ghost var stream := Stream(MsbFirst, data);
    ghost var off := EffectiveOffset(bitOffset);
    NoSeptets(MsbFirst, stream, off);
    var strbuf: seq<Byte> := [];
    var rest: Byte := ZERO;
    var bits := bitOffset % 8;
    if bits == 0 {
      bits := 7;
    }
    var ptr, charCount := 0, 0;
    while charCount < noOfChars
      invariant 0 <= charCount <= CharCount(noOfChars)
      invariant ptr == 0 ==> charCount == 0 && rest == ZERO && bits == if off == 0 then 7 else off
      invariant ptr > 0 ==> 0 <= bits <= 7 && off + 7 * charCount == 8 * ptr - 7 + bits
      invariant bits == 0 ==> charCount == noOfChars
      invariant bits == 7 ==> rest == ZERO
      invariant ptr <= |data| && (noOfChars <= 0 ==> ptr == 0)
      invariant ptr > 0 && 1 <= bits <= 6 ==> rest == RestMsb(data[ptr - 1], bits)
      invariant strbuf == Septets(MsbFirst, stream, off, charCount)
      decreases noOfChars - charCount, if ptr == 0 then 1 else 0
    {
      var inByte := data[ptr];
      var outByte := OutMsb(inByte, bits, rest);
      if ptr != 0 || bits == 7 {
        NextMsb(data, ptr, bits, rest);
        OneMoreSeptet(MsbFirst, stream, off, charCount);
        strbuf := strbuf + [outByte];
        charCount := charCount + 1;
      }
      rest := RestMsb(inByte, bits - 1);
      if bits == 1 && charCount < noOfChars {
        LastMsb(data, ptr);
        OneMoreSeptet(MsbFirst, stream, off, charCount);
        strbuf := strbuf + [rest];
        charCount := charCount + 1;
        bits := 7;
        rest := ZERO;
      } else {
        bits := bits - 1;
      }
      ptr := ptr + 1;
    }
    if noOfChars > 0 {
      BytesForIs(off + 7 * noOfChars, ptr);
    }
    return strbuf, ptr;
  }

  /* ---------- packing ---------- */

  /** Up to eight bits as a byte, filled up with zeros. */
  function ByteOf(order: BitOrder, bits: seq<bool>): Byte {
    FromBits(i => var j := if order.LsbFirst? then i else 7 - i; 0 <= j < |bits| && bits[j])
  }

  /** A bit string cut into bytes, the last one filled up with zero bits. */
  function Pack(order: BitOrder, bits: seq<bool>): (data: seq<Byte>)
    ensures |data| == BytesFor(|bits|)
    decreases |bits|
  {
    if bits == [] then []
    else if |bits| <= 8 then [ByteOf(order, bits)]
    else [ByteOf(order, bits[..8])] + Pack(order, bits[8..])
  }

  lemma {:induction false} PackedByte(order: BitOrder, bits: seq<bool>, k: nat, i: nat)
    requires i < 8 && 8 * k + i < |bits|
    ensures k < |Pack(order, bits)| && NthBit(order, Pack(order, bits)[k], i) == bits[8 * k + i]
    decreases k
  {
    if k > 0 {
      PackedByte(order, bits[8..], k - 1, i);
    } else {
      var head := if |bits| <= 8 then bits else bits[..8];
      FromBitsAt(j => var m := if order.LsbFirst? then j else 7 - j; 0 <= m < |head| && head[m],
                 if order.LsbFirst? then i else 7 - i);
    }
  }

  lemma {:induction false} StreamOfPacked(order: BitOrder, bits: seq<bool>)
    ensures bits <= Stream(order, Pack(order, bits))
  {
    var s := Stream(order, Pack(order, bits));
    forall p: nat | p < |bits| ensures s[p] == bits[p] {
      var k, i := p / 8, p % 8;
      PackedByte(order, bits, k, i);
      StreamAt(order, Pack(order, bits), k, i);
    }
  }

  function SeptetBits(order: BitOrder, v: Byte): (b: seq<bool>)
    ensures |b| == 7
  {
    seq(7, i => v.Bit(if order.LsbFirst? then i else 6 - i))
  }

  function AllBits(order: BitOrder, septets: seq<Byte>): (b: seq<bool>)
    ensures |b| == 7 * |septets|
  {
    if septets == [] then []
    else AllBits(order, septets[..|septets| - 1]) + SeptetBits(order, septets[|septets| - 1])
  }

  predicate SevenBitValues(septets: seq<Byte>) {
    forall i :: 0 <= i < |septets| ==> !septets[i].b7
  }

  lemma SeptetOfBits(order: BitOrder, v: Byte, s: seq<bool>, p: nat)
    requires !v.b7 && p + 7 <= |s| && s[p..p + 7] == SeptetBits(order, v)
    ensures SeptetAt(order, s, p) == v
  {
    forall i: nat | i < 8 ensures SeptetAt(order, s, p).Bit(i) == v.Bit(i) {
      SeptetBit(order, s, p, i);
      if i < 7 {
        var j := if order.LsbFirst? then i else 6 - i;
        assert s[p + j] == s[p..p + 7][j];
      }
    }
    SameBits(SeptetAt(order, s, p), v);
  }

  lemma {:induction false} SeptetsOfAllBits(order: BitOrder, lead: seq<bool>, septets: seq<Byte>, s: seq<bool>)
    requires SevenBitValues(septets) && lead + AllBits(order, septets) <= s
    ensures Septets(order, s, |lead|, |septets|) == septets
  {
    hide SeptetAt, SeptetBits;
    if septets != [] {
      var front, v := septets[..|septets| - 1], septets[|septets| - 1];
      var b := lead + AllBits(order, front);
      assert lead + AllBits(order, septets) == b + SeptetBits(order, v);
      SeptetsOfAllBits(order, lead, front, s);
      assert s[|b|..|b| + 7] == SeptetBits(order, v);
      SeptetOfBits(order, v, s, |b|);
    }
  }

  /** Reading septets from where they were packed gives them back, in either order and after any leading bits. */
  lemma {:induction false} UnpackPack(order: BitOrder, lead: seq<bool>, septets: seq<Byte>)
    requires SevenBitValues(septets)
    ensures var data := Pack(order, lead + AllBits(order, septets));
            && |lead| + 7 * |septets| <= 8 * |data|
            && Septets(order, Stream(order, data), |lead|, |septets|) == septets
  {
    var bits := lead + AllBits(order, septets);
    StreamOfPacked(order, bits);
    SeptetsOfAllBits(order, lead, septets, Stream(order, Pack(order, bits)));
  }

  /**
   The decoders read the septets that begin at the bit offset they are given, for every
   byte string, exactly if that offset is not 7 modulo 8 (or no character is asked for).
   */
  lemma {:induction false} OffsetSevenIsZero(order: BitOrder, bitOffset: int, n: nat)
    ensures (forall data: seq<Byte> | bitOffset % 8 + 7 * n <= 8 * |data| ::
               Septets(order, Stream(order, data), EffectiveOffset(bitOffset), n)
               == Septets(order, Stream(order, data), bitOffset % 8, n))
            <==> bitOffset % 8 != 7 || n == 0
  {
    hide Stream, SeptetAt, Septets;
    if bitOffset % 8 == 7 && n > 0 {
      var data := OffsetWitness(order, n);
      assert Septets(order, Stream(order, data), EffectiveOffset(bitOffset), n)
          != Septets(order, Stream(order, data), bitOffset % 8, n);
    }
  }

  /** A single one bit at the front tells offset 0 from offset 7. */
  lemma {:induction false} OffsetWitness(order: BitOrder, n: nat) returns (data: seq<Byte>)
    requires n > 0
    ensures 7 + 7 * n <= 8 * |data|
    ensures Septets(order, Stream(order, data), 0, n) != Septets(order, Stream(order, data), 7, n)
  {
    hide Stream, SeptetAt, Septets, Pack;
    var bits := seq(7 + 7 * n, i => i == 0);
    data := Pack(order, bits);
    var s := Stream(order, data);
    StreamOfPacked(order, bits);
    SeptetsAt(order, s, 0, n, 0);
    SeptetsAt(order, s, 7, n, 0);
    var i := if order.LsbFirst? then 0 else 6;
    SeptetBit(order, s, 0, i);
    SeptetBit(order, s, 7, i);
    assert s[0] == bits[0] && s[if order.LsbFirst? then 7 else 13 - 6] == bits[7];
  }

  /* ---------- GSM text ---------- */

  /** gsm_default_alphabet, by its rows */
  function AlphabetRow(r: nat): (row: seq<Unichar>)
    ensures |row| == 8
  {
    match r
    case 0 => [0x40, 0xa3, 0x24, 0xa5, 0xe8, 0xe9, 0xf9, 0xec]
    case 1 => [0xf2, 0xc7, 0x0a, 0xd8, 0xf8, 0x0d, 0xc5, 0xe5]
    case 2 => [0x394, 0x5f, 0x3a6, 0x393, 0x39b, 0x3a9, 0x3a0, 0x3a8]
    case 3 => [0x3a3, 0x398, 0x39e, 0xa0, 0xc6, 0xe6, 0xdf, 0xc9]
    case 4 => [0x20, 0x21, 0x22, 0x23, 0xa4, 0x25, 0x26, 0x27]
    case 5 => [0x28, 0x29, 0x2a, 0x2b, 0x2c, 0x2d, 0x2e, 0x2f]
    case 6 => [0x30, 0x31, 0x32, 0x33, 0x34, 0x35, 0x36, 0x37]
    case 7 => [0x38, 0x39, 0x3a, 0x3b, 0x3c, 0x3d, 0x3e, 0x3f]
    case 8 => [0xa1, 0x41, 0x42, 0x43, 0x44, 0x45, 0x46, 0x47]
    case 9 => [0x48, 0x49, 0x4a, 0x4b, 0x4c, 0x4d, 0x4e, 0x4f]
    case 10 => [0x50, 0x51, 0x52, 0x53, 0x54, 0x55, 0x56, 0x57]
    case 11 => [0x58, 0x59, 0x5a, 0xc4, 0xd6, 0xd1, 0xdc, 0xa7]
    case 12 => [0xbf, 0x61, 0x62, 0x63, 0x64, 0x65, 0x66, 0x67]
    case 13 => [0x68, 0x69, 0x6a, 0x6b, 0x6c, 0x6d, 0x6e, 0x6f]
    case 14 => [0x70, 0x71, 0x72, 0x73, 0x74, 0x75, 0x76, 0x77]
    case _ => [0x78, 0x79, 0x7a, 0xe4, 0xf6, 0xf1, 0xfc, 0xe0]
  }

  function GsmToUnichar(c: Byte): Unichar {
    if c.Value() < 0x80 then AlphabetRow(c.Value() / 8)[c.Value() % 8] else UNREPL
  }

  function GsmExtToUnichar(c: Byte): Unichar {
    match c.Value()
    case 0x0a => 0x0c case 0x14 => 0x5e case 0x28 => 0x7b case 0x29 => 0x7d case 0x2f => 0x5c
    case 0x3c => 0x5b case 0x3d => 0x7e case 0x3e => 0x5d case 0x40 => 0x7c case 0x65 => 0x20ac
    case _ => UNREPL
  }

  /** GN_CHAR_ESCAPE, 0x1b */
  const ESCAPE := Byte(true, true, false, true, true, false, false, false)

  predicate CharIsEscape(c: Byte) {
    c.Value() == 0x1b
  }

  /** handle_ts_23_038_char */
  function HandleChar(strbuf: seq<Unichar>, codePoint: Byte, sawEscape: bool): (seq<Unichar>, bool) {
    if CharIsEscape(codePoint) then (strbuf, true)
    else if sawEscape then (strbuf + [GsmExtToUnichar(codePoint)], false)
    else (strbuf + [GsmToUnichar(codePoint)], false)
  }

  function HandleAll(septets: seq<Byte>): (seq<Unichar>, bool) {
    if septets == [] then ([], false)
    else
      var h := HandleAll(septets[..|septets| - 1]);
      HandleChar(h.0, septets[|septets| - 1], h.1)
  }

  lemma HandleLast(septets: seq<Byte>, v: Byte)
    ensures HandleAll(septets + [v]) == HandleChar(HandleAll(septets).0, v, HandleAll(septets).1)
  {
    assert (septets + [v])[..|septets|] == septets;
  }

  /** The text of a septet string: escapes select the extension table, a dangling one is a replacement character. */
  function TextOf(septets: seq<Byte>): seq<Unichar> {
    var h := HandleAll(septets);
    if h.1 then h.0 + [UNREPL] else h.0
  }

  /** A character as a code of the default table or, after an escape, of the extension table. */
  datatype GsmCode = Basic(code: Byte) | Extended(code: Byte) {
    predicate Valid() {
      !code.b7 && !CharIsEscape(code)
    }

    function Char(): Unichar {
      match this
      case Basic(c) => GsmToUnichar(c)
      case Extended(c) => GsmExtToUnichar(c)
    }

    function Coded(): seq<Byte> {
      match this
      case Basic(c) => [c]
      case Extended(c) => [ESCAPE, c]
    }
  }

  predicate ValidCodes(codes: seq<GsmCode>) {
    forall i :: 0 <= i < |codes| ==> codes[i].Valid()
  }

  function Chars(codes: seq<GsmCode>): seq<Unichar> {
    if codes == [] then [] else Chars(codes[..|codes| - 1]) + [codes[|codes| - 1].Char()]
  }

  function CodedAll(codes: seq<GsmCode>): seq<Byte> {
    if codes == [] then [] else CodedAll(codes[..|codes| - 1]) + codes[|codes| - 1].Coded()
  }

  lemma {:induction false} HandleCoded(codes: seq<GsmCode>)
    requires ValidCodes(codes)
    ensures SevenBitValues(CodedAll(codes)) && HandleAll(CodedAll(codes)) == (Chars(codes), false)
  {
    if codes != [] {
      var front, last := codes[..|codes| - 1], codes[|codes| - 1];
      HandleCoded(front);
      HandleLast(CodedAll(front), last.Coded()[0]);
      if last.Extended? {
        HandleLast(CodedAll(front) + [ESCAPE], last.code);
        assert CodedAll(codes) == CodedAll(front) + [ESCAPE] + [last.code];
      }
    }
  }

  /** 1 for a set bit */
  function One(bit: bool): nat {
    if bit then 1 else 0
  }

  /** The bits of a byte are the binary digits of its value. */
  lemma {:induction false} BitsOfValue(b: Byte)
    ensures var v := b.Value();
            && b.Bit(0) == (v % 2 == 1) && b.Bit(1) == (v / 2 % 2 == 1) && b.Bit(2) == (v / 4 % 2 == 1)
            && b.Bit(3) == (v / 8 % 2 == 1) && b.Bit(4) == (v / 16 % 2 == 1) && b.Bit(5) == (v / 32 % 2 == 1)
            && b.Bit(6) == (v / 64 % 2 == 1) && b.Bit(7) == (v / 128 == 1)
  {
    var h6 := One(b.b6) + 2 * One(b.b7);
    var h5 := One(b.b5) + 2 * h6;
    var h4 := One(b.b4) + 2 * h5;
    var h3 := One(b.b3) + 2 * h4;
    var h2 := One(b.b2) + 2 * h3;
    var h1 := One(b.b1) + 2 * h2;
    assert b.Value() == One(b.b0) + 2 * h1;
    assert b.Value() / 2 == h1 && b.Value() / 4 == h2 && b.Value() / 8 == h3 && b.Value() / 16 == h4;
    assert b.Value() / 32 == h5 && b.Value() / 64 == h6 && b.Value() / 128 == One(b.b7);
  }

  /** Letters, digits and most punctuation. */
  predicate SharedWithAscii(v: nat) {
    (0x20 <= v <= 0x5A && v != 0x24 && v != 0x40) || 0x61 <= v <= 0x7A
  }

  /** The character of a code in the default alphabet */
  function DefaultEntry(v: nat): Unichar
    requires v < 0x80
  {
    AlphabetRow(v / 8)[v % 8]
  }

  predicate RowAgrees(r: nat) {
    var row := AlphabetRow(r);
    && (SharedWithAscii(8 * r) ==> row[0] == 8 * r) && (SharedWithAscii(8 * r + 1) ==> row[1] == 8 * r + 1)
    && (SharedWithAscii(8 * r + 2) ==> row[2] == 8 * r + 2) && (SharedWithAscii(8 * r + 3) ==> row[3] == 8 * r + 3)
    && (SharedWithAscii(8 * r + 4) ==> row[4] == 8 * r + 4) && (SharedWithAscii(8 * r + 5) ==> row[5] == 8 * r + 5)
    && (SharedWithAscii(8 * r + 6) ==> row[6] == 8 * r + 6) && (SharedWithAscii(8 * r + 7) ==> row[7] == 8 * r + 7)
  }

  lemma RowsAgree(r: nat)
    requires r < 16
    ensures RowAgrees(r)
  {
    match r
    case 0 => case 1 => case 2 => case 3 => case 4 => case 5 => case 6 => case 7 =>
    case 8 => case 9 => case 10 => case 11 => case 12 => case 13 => case 14 => case 15 =>
  }

  lemma EntryAgrees(r: nat, k: nat)
    requires k < 8 && RowAgrees(r)
    ensures SharedWithAscii(8 * r + k) ==> AlphabetRow(r)[k] == 8 * r + k
  {
    hide AlphabetRow, SharedWithAscii;
    match k
    case 0 => case 1 => case 2 => case 3 => case 4 => case 5 => case 6 => case 7 =>
  }

  /** Letters, digits and most punctuation have the codes they have in ASCII. */
  lemma {:induction false} AsciiCodes(c: Byte)
    ensures SharedWithAscii(c.Value()) ==> GsmToUnichar(c) == c.Value()
    ensures c.Value() < 0x80 ==> GsmToUnichar(c) == DefaultEntry(c.Value())
    ensures c.Value() >= 0x80 ==> GsmToUnichar(c) == 0xFFFD
  {
    hide AlphabetRow, RowAgrees, Byte.Value;
    var v := c.Value();
    if v < 0x80 {
      RowsAgree(v / 8);
      EntryAgrees(v / 8, v % 8);
    }
  }

  /** The others, in the order of Unicode: control characters and symbols, */
  lemma {:induction false} OtherCodes()
    ensures
      && DefaultEntry(0x0A) == 0x0A && DefaultEntry(0x0D) == 0x0D && DefaultEntry(0x02) == 0x24 && DefaultEntry(0x00) == 0x40
      && DefaultEntry(0x11) == 0x5F
  {
  }

  /** Latin letters and symbols, */
  lemma {:induction false} LatinCodes()
    ensures
      && DefaultEntry(0x1B) == 0xA0 && DefaultEntry(0x40) == 0xA1 && DefaultEntry(0x01) == 0xA3 && DefaultEntry(0x24) == 0xA4
      && DefaultEntry(0x03) == 0xA5 && DefaultEntry(0x5F) == 0xA7 && DefaultEntry(0x60) == 0xBF && DefaultEntry(0x5B) == 0xC4
      && DefaultEntry(0x0E) == 0xC5 && DefaultEntry(0x1C) == 0xC6 && DefaultEntry(0x09) == 0xC7 && DefaultEntry(0x1F) == 0xC9
      && DefaultEntry(0x5D) == 0xD1 && DefaultEntry(0x5C) == 0xD6 && DefaultEntry(0x0B) == 0xD8 && DefaultEntry(0x5E) == 0xDC
      && DefaultEntry(0x1E) == 0xDF && DefaultEntry(0x7F) == 0xE0 && DefaultEntry(0x7B) == 0xE4 && DefaultEntry(0x0F) == 0xE5
      && DefaultEntry(0x1D) == 0xE6 && DefaultEntry(0x04) == 0xE8 && DefaultEntry(0x05) == 0xE9 && DefaultEntry(0x07) == 0xEC
      && DefaultEntry(0x7D) == 0xF1 && DefaultEntry(0x08) == 0xF2 && DefaultEntry(0x7C) == 0xF6 && DefaultEntry(0x0C) == 0xF8
      && DefaultEntry(0x06) == 0xF9 && DefaultEntry(0x7E) == 0xFC
  {
  }

  /** and Greek letters. */
  lemma {:induction false} GreekCodes()
    ensures
      && DefaultEntry(0x13) == 0x393 && DefaultEntry(0x10) == 0x394 && DefaultEntry(0x19) == 0x398 && DefaultEntry(0x14) == 0x39B
      && DefaultEntry(0x1A) == 0x39E && DefaultEntry(0x16) == 0x3A0 && DefaultEntry(0x18) == 0x3A3 && DefaultEntry(0x12) == 0x3A6
      && DefaultEntry(0x17) == 0x3A8 && DefaultEntry(0x15) == 0x3A9
  {
  }

  /** The extension table: the form feed, brackets, braces and the like, and the euro sign; no other code has a character. */
  lemma {:induction false} ExtensionCodes(c: Byte)
    ensures var v, u := c.Value(), GsmExtToUnichar(c);
            && (v == 0x0A <==> u == 0x0C) && (v == 0x3C <==> u == '[' as int) && (v == 0x2F <==> u == '\\' as int)
            && (v == 0x3E <==> u == ']' as int) && (v == 0x14 <==> u == '^' as int) && (v == 0x28 <==> u == '{' as int)
            && (v == 0x40 <==> u == '|' as int) && (v == 0x29 <==> u == '}' as int) && (v == 0x3D <==> u == '~' as int)
            && (v == 0x65 <==> u == 0x20AC)
            && (u == 0xFFFD <==> v !in {0x0A, 0x3C, 0x2F, 0x3E, 0x14, 0x28, 0x40, 0x29, 0x3D, 0x65})
  {
    hide Byte.Value;
  }

  /** There is one escape code. */
  lemma {:induction false} EscapeIs(c: Byte)
    ensures CharIsEscape(c) <==> c == ESCAPE
    ensures ESCAPE.Value() == 27
  {
    assert ESCAPE.Value() == 27;
    if c.Value() == 27 {
      BitsOfValue(c);
      SameBits(c, ESCAPE);
    }
  }

  /** An escape at the end gives a replacement character; one escape after the other counts once. */
  lemma {:induction false} DanglingEscape(codes: seq<GsmCode>)
    requires ValidCodes(codes)
    ensures TextOf(CodedAll(codes)) == Chars(codes)
    ensures TextOf(CodedAll(codes) + [ESCAPE]) == Chars(codes) + [0xFFFD]
    ensures HandleAll(CodedAll(codes) + [ESCAPE] + [ESCAPE]) == HandleAll(CodedAll(codes) + [ESCAPE])
  {
    HandleCoded(codes);
    HandleLast(CodedAll(codes), ESCAPE);
    HandleLast(CodedAll(codes) + [ESCAPE], ESCAPE);
  }

  /**
   Packing a text as in section 6.1.2 of 3GPP TS 23.038, behind fewer than seven
   leading bits, and decoding it gives the text back.
   */
  method GsmRoundTrip(codes: seq<GsmCode>, lead: seq<bool>) returns (text: seq<Unichar>)
    requires ValidCodes(codes) && |lead| < 7
    ensures text == Chars(codes)
  {
    hide Septets, Stream, Pack, AllBits, HandleAll, CodedAll, Chars;
    var septets := CodedAll(codes);
    HandleCoded(codes);
    UnpackPack(LsbFirst, lead, septets);
    var data := Pack(LsbFirst, lead + AllBits(LsbFirst, septets));
    var n;
    text, n := GetTs23038SevenBitsString(data, |lead|, |septets|);
  }

  method AsciiRoundTrip(ascii: seq<Byte>, lead: seq<bool>) returns (text: seq<Byte>)
    requires SevenBitValues(ascii) && |lead| < 7
    ensures text == ascii
  {
    hide Septets, Stream, Pack, AllBits, HandleAll, CodedAll, Chars;
    UnpackPack(MsbFirst, lead, ascii);
    var data := Pack(MsbFirst, lead + AllBits(MsbFirst, ascii));
    var n;
    text, n := GetAsciiSevenBitsString(data, |lead|, |ascii|);
  }
}
