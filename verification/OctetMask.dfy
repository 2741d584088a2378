/**
 Masking an address, a string of octets, to its first bits: in place as
 parse_ether_address does, or into a copy as wka_name_lookup does (addr_resolv.c).
 */
module OctetMask {
  import opened Basics
  import opened Bits

  /** octet & (0xFF << (8 - n)), of which the low eight bits count */
  function MaskOctet(b: byte, n: nat): byte
    requires n <= 8
  {
    MaskOctetIs(b, n);
    BitAnd(b, 0x100 - Pow2(8 - n))
  }

  lemma MaskOctetIs(b: byte, n: nat)
    requires n <= 8
    ensures Pow2(8 - n) <= 0x100
    ensures BitAnd(b, 0x100 - Pow2(8 - n)) == RoundDown(b, Pow2(8 - n))
  {
    assert Pow2(8) == 0x100;
    AndMask(b, n, 8);
  }

  function MaskedOctet(a: seq<byte>, m: nat, k: nat): byte
    requires k < |a|
  {
    if 8 * k + 8 <= m then a[k] else if m <= 8 * k then 0 else MaskOctet(a[k], m - 8 * k)
  }

  /** The first m bits of the address, the others zero. */
  function MaskAddr(a: seq<byte>, m: nat): (r: seq<byte>)
    ensures |r| == |a|
  {
    seq(|a|, k requires 0 <= k < |a| => MaskedOctet(a, m, k))
  }

  lemma MaskOctetTwice(b: byte, m: nat, p: nat)
    requires m <= 8 && p <= 8
    ensures MaskOctet(MaskOctet(b, m), p) == MaskOctet(b, if m < p then m else p)
  {
    hide BitAnd, Pow2, RoundDown;
    MaskOctetIs(b, m);
    MaskOctetIs(MaskOctet(b, m), p);
    MaskOctetIs(b, if m < p then m else p);
    RoundDownTwice(b, 8 - m, 8 - p);
  }

  lemma MaskOctetEnds(b: byte)
    ensures MaskOctet(b, 0) == 0 && MaskOctet(b, 8) == b
  {
    MaskOctetIs(b, 0);
    MaskOctetIs(b, 8);
    assert Pow2(8) == 0x100;
  }

  /** Masking twice is masking to the shorter length. */
  lemma {:induction false} MaskMask(a: seq<byte>, m: nat, p: nat)
    ensures MaskAddr(MaskAddr(a, m), p) == MaskAddr(a, if m < p then m else p)
  {
    hide MaskOctet;
    forall k: nat | k < |a|
      ensures MaskedOctet(MaskAddr(a, m), p, k) == MaskedOctet(a, if m < p then m else p, k)
    {
      MaskOctetEnds(0);
      if 8 * k < p < 8 * k + 8 {
        MaskOctetTwice(a[k], if m < 8 * k then 0 else if m > 8 * k + 8 then 8 else m - 8 * k, p - 8 * k);
        MaskOctetEnds(a[k]);
        MaskOctetEnds(MaskOctet(a[k], p - 8 * k));
        ZeroMasked(p - 8 * k);
      }
    }
  }

  lemma MaskOctetValue(b: byte, n: nat)
    requires n <= 8
    ensures Pow2(8 - n) <= 0x100 && MaskOctet(b, n) == BitAnd(b, 0x100 - Pow2(8 - n))
    ensures MaskOctet(b, n) == RoundDown(b, Pow2(8 - n))
  {
    hide BitAnd, Pow2, RoundDown;
    MaskOctetIs(b, n);
  }

  /** The first bit alone. */
  lemma MaskOctetFirst(b: byte)
    ensures MaskOctet(b, 1) == if b < 0x80 then 0 else 0x80
  {
    hide MaskOctet, BitAnd;
    MaskOctetValue(b, 1);
    assert Pow2(7) == 0x80;
  }

  lemma ZeroMasked(n: nat)
    requires n <= 8
    ensures MaskOctet(0, n) == 0
  {
    MaskOctetIs(0, n);
  }

  /** "Mask out the bits not covered by the mask", as parse_ether_address does it. */
  method MaskInPlace(addr: array<byte>, mask: nat)
    requires addr.Length == 6 && mask < 48
    modifies addr
    ensures addr[..] == MaskAddr(old(addr[..]), mask)
  {
    hide MaskOctet;
    ghost var was := addr[..];
    var i, num := 0, mask;
    while num >= 8
      invariant num == mask - 8 * i && addr[..] == was
    {
      i, num := i + 1, num - 8;
    }
    MaskOctetEnds(addr[i]);
    addr[i] := MaskOctet(addr[i], num);
    i := i + 1;
    while i < 6
      invariant mask / 8 + 1 <= i <= 6
      invariant forall k | 0 <= k < 6 :: addr[k] == if k < i then MaskedOctet(was, mask, k) else was[k]
    {
      addr[i] := 0;
      i := i + 1;
    }
  }
}
