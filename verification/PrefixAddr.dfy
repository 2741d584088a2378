/**
 Reading the first bits of an IPv4 or IPv6 address out of a packet (addr_and_mask.c),
 against masking the whole address, octet by octet and as one number.
 */
module PrefixAddr {
  import opened Basics
  import opened Bits
  import opened OctetMask
  import Subnets

  datatype Outcome =
    | Length(octets: nat)
    | TooLong      // -1
    | OutOfBounds  // tvb_memcpy throws

  function Octets(prefixLen: nat): nat {
    (prefixLen + 7) / 8
  }

  /** (0xff00 >> n) & 0xff */
  function KeepMask(n: nat): nat {
    0xff00 / Pow2(n) % 0x100
  }

  lemma KeepMaskIs(b: byte, n: nat)
    requires 0 < n < 8
    ensures BitAnd(b, KeepMask(n)) == MaskOctet(b, n)
  {
    hide BitAnd, MaskOctet, Pow2;
    MaskOctetValue(b, n);
    Powers();
    assert KeepMask(n) == 0x100 - Pow2(8 - n) by {
      match n case 1 => case 2 => case 3 => case 4 => case 5 => case 6 => case 7 =>
    }
  }

  lemma Powers()
    ensures Pow2(0) == 1 && Pow2(1) == 2 && Pow2(2) == 4 && Pow2(3) == 8 && Pow2(4) == 16
    ensures Pow2(5) == 32 && Pow2(6) == 64 && Pow2(7) == 128
  {
    assert Pow2(4) == 16;
  }

  /** The octets that were read, then zeros. */
  function Filled(tvb: seq<byte>, offset: nat, n: nat, size: nat): (r: seq<byte>)
    requires offset + n <= |tvb| && n <= size
    ensures |r| == size
  {
    tvb[offset..offset + n] + seq(size - n, _ => 0)
  }

  /**
   tvb_get_ipv4_addr_with_prefix_len for an address of 4 octets and
   tvb_get_ipv6_addr_with_prefix_len for one of 16.
   */
  method GetAddrWithPrefixLen(tvb: seq<byte>, offset: nat, addr: array<byte>, prefixLen: nat) returns (r: Outcome)
    requires addr.Length == 4 || addr.Length == 16
    modifies addr
    ensures r == if prefixLen > 8 * addr.Length then TooLong
                 else if offset + Octets(prefixLen) <= |tvb| then Length(Octets(prefixLen))
                 else OutOfBounds
    ensures r.TooLong? ==> addr[..] == old(addr[..])
    ensures r.OutOfBounds? ==> forall k | 0 <= k < addr.Length :: addr[k] == 0
    ensures r.Length? ==> addr[..] == MaskAddr(Filled(tvb, offset, r.octets, addr.Length), prefixLen)
  {
    hide MaskOctet, BitAnd, KeepMask;
    if prefixLen > 8 * addr.Length {
      return TooLong;
    }
    var addrLen := (prefixLen + 7) / 8;
    forall k | 0 <= k < addr.Length {
      addr[k] := 0;
    }
    if offset + addrLen > |tvb| {
      return OutOfBounds;
    }
    forall k | 0 <= k < addrLen {
      addr[k] := tvb[offset + k];
    }
    ghost var filled := Filled(tvb, offset, addrLen, addr.Length);
    assert addr[..] == filled;
    if prefixLen % 8 != 0 {
      KeepMaskIs(addr[addrLen - 1], prefixLen % 8);
      addr[addrLen - 1] := BitAnd(addr[addrLen - 1], KeepMask(prefixLen % 8));
    }
    r := Length(addrLen);
  }

  /** The octets left unread do not matter: the result is the whole address masked. */
  lemma {:induction false} UnreadOctetsMasked(tvb: seq<byte>, offset: nat, prefixLen: nat, size: nat)
    requires prefixLen <= 8 * size && offset + size <= |tvb|
    ensures MaskAddr(Filled(tvb, offset, Octets(prefixLen), size), prefixLen) ==
            MaskAddr(tvb[offset..offset + size], prefixLen)
  {
    hide MaskOctet;
    var a, b := Filled(tvb, offset, Octets(prefixLen), size), tvb[offset..offset + size];
    forall k: nat | k < size
      ensures MaskedOctet(a, prefixLen, k) == MaskedOctet(b, prefixLen, k)
    {
      assert k < Octets(prefixLen) ==> a[k] == b[k];
    }
  }

  /** An IPv4 address as a number, its first octet the most significant. */
  function Word(a: seq<byte>): Subnets.Addr
    requires |a| == 4
  {
    (((a[0] as int * 0x100) + a[1] as int) * 0x100 + a[2] as int) * 0x100 + a[3] as int
  }

  lemma ProductOfSum(d: nat, q: nat, r: nat, m: nat)
    ensures (d * q + r) * m == d * (q * m) + r * m
    ensures (q - r) * m == q * m - r * m
  {
  }

  lemma RoundDownScaled(x: nat, lo: nat, m: nat, q: nat)
    requires lo < m && 0 < q
    ensures 0 < q * m && RoundDown(x * m + lo, q * m) == RoundDown(x, q) * m
  {
    var d, r := x / q, x % q;
    ProductOfSum(d, q, r, m);
    ProductOfSum(d, x, r, m);
    MulSign(q - r, m);
    assert x == d * q + r;
    MulSign(q, m);
    ModUnique(x * m + lo, q * m, d, r * m + lo);
  }

  lemma RoundDownAfterMultiple(k: nat, q: nat, b: nat)
    requires 0 < q
    ensures RoundDown(k * q + b, q) == k * q + RoundDown(b, q)
  {
    ProductOfSum(k, 1, b / q, q);
    assert b == b / q * q + b % q;
    ModUnique(k * q + b, q, k + b / q, b % q);
  }

  lemma RoundDownOctet(hi: nat, b: byte, n: nat)
    requires n <= 8
    ensures RoundDown(hi * 0x100 + b as int, Pow2(8 - n)) == hi * 0x100 + MaskOctet(b, n) as int
  {
    hide MaskOctet, BitAnd, RoundDown, Pow2;
    MaskOctetValue(b, n);
    var q := Pow2(8 - n);
    Pow2Add(n, 8 - n);
    OctetPowers();
    Associate(hi, Pow2(n), q);
    RoundDownAfterMultiple(hi * Pow2(n), q, b);
  }

  lemma Associate(a: nat, b: nat, c: nat)
    ensures a * (b * c) == (a * b) * c
  {
  }

  /** Rounding within one octet, with octets before and after it. */
  lemma RoundDownWithin(hi: nat, b: byte, lo: nat, n: nat, after: nat)
    requires n <= 8 && lo < Pow2(after)
    ensures RoundDown((hi * 0x100 + b as int) * Pow2(after) + lo, Pow2(8 - n + after)) ==
            (hi * 0x100 + MaskOctet(b, n) as int) * Pow2(after)
  {
    hide MaskOctet, BitAnd, RoundDown;
    Pow2Add(8 - n, after);
    RoundDownScaled(hi * 0x100 + b as int, lo, Pow2(after), Pow2(8 - n));
    RoundDownOctet(hi, b, n);
  }

  /** The octets before and after octet k, as numbers. */
  function Before(a: seq<byte>, k: nat): nat
    requires |a| == 4 && k < 4
  {
    if k == 0 then 0 else Before(a, k - 1) * 0x100 + a[k - 1] as int
  }

  /** The weight of octet k. */
  function Weight(k: nat): nat
    requires k < 4
  {
    match k case 0 => 0x100_0000 case 1 => 0x1_0000 case 2 => 0x100 case 3 => 1
  }

  function After(a: seq<byte>, k: nat): nat
    requires |a| == 4 && k < 4
    decreases 3 - k
  {
    if k == 3 then 0 else a[k + 1] as int * Weight(k + 1) + After(a, k + 1)
  }

  lemma Parts(a: seq<byte>)
    requires |a| == 4
    ensures Before(a, 0) == 0 && Before(a, 1) == a[0] as int && Before(a, 2) == a[0] as int * 0x100 + a[1] as int
    ensures Before(a, 3) == Before(a, 2) * 0x100 + a[2] as int
    ensures After(a, 3) == 0 && After(a, 2) == a[3] as int && After(a, 1) == a[2] as int * 0x100 + a[3] as int
    ensures After(a, 0) == a[1] as int * 0x1_0000 + After(a, 1)
  {
  }

  lemma WordAround(a: seq<byte>, k: nat)
    requires |a| == 4 && k < 4
    ensures Word(a) == (Before(a, k) * 0x100 + a[k] as int) * Weight(k) + After(a, k)
    ensures After(a, k) < Weight(k)
  {
    hide Before, After;
    Parts(a);
    match k case 0 => case 1 => case 2 => case 3 =>
  }

  lemma WeightIsPower(k: nat)
    requires k < 4
    ensures Weight(k) == Pow2(8 * (3 - k))
  {
    hide Pow2;
    OctetPowers();
  }

  lemma {:induction false} SameBefore(a: seq<byte>, b: seq<byte>, k: nat)
    requires |a| == |b| == 4 && k < 4 && a[..k] == b[..k]
    ensures Before(a, k) == Before(b, k)
  {
    if 0 < k {
      assert a[k - 1] == a[..k][k - 1] == b[k - 1] && a[..k - 1] == a[..k][..k - 1] == b[..k - 1];
      SameBefore(a, b, k - 1);
    }
  }

  lemma {:induction false} NothingAfter(a: seq<byte>, k: nat)
    requires |a| == 4 && k < 4 && forall i | k < i < 4 :: a[i] == 0
    ensures After(a, k) == 0
    decreases 3 - k
  {
    if k < 3 {
      NothingAfter(a, k + 1);
    }
  }

  /** Masking an IPv4 address by octets is masking its number with the subnet mask of that length. */
  lemma {:induction false} MaskAddrIsSubnetMask(a: seq<byte>, n: nat)
    requires |a| == 4 && n <= 32
    ensures Word(MaskAddr(a, n)) == Subnets.Masked(Word(a), n)
  {
    hide MaskOctet, BitAnd, Pow2, RoundDown, Word, Before, After, Weight;
    var k, m := if n < 32 then n / 8 else 3, MaskAddr(a, n);
    WordAround(a, k);
    WordAround(m, k);
    WeightIsPower(k);
    MaskOctetEnds(a[k]);
    SameBefore(a, m, k);
    NothingAfter(m, k);
    RoundDownWithin(Before(a, k), a[k], After(a, k), n - 8 * k, 8 * (3 - k));
    MaskedIsRoundDown(Word(a), n);
  }

  lemma MaskedIsRoundDown(w: Subnets.Addr, n: nat)
    requires n <= 32
    ensures Subnets.Masked(w, n) == RoundDown(w, Pow2(32 - n))
  {
    hide BitAnd, Pow2;
    WholeWord();
    AndMask(w, n, 32);
    Subnets.MaskValue(n);
  }

  lemma OctetPowers()
    ensures Pow2(0) == 1 && Pow2(8) == 0x100 && Pow2(16) == 0x1_0000 && Pow2(24) == 0x100_0000
  {
    assert Pow2(8) == 0x100;
    assert Pow2(16) == 0x1_0000;
    assert Pow2(20) == 0x10_0000;
  }
}
