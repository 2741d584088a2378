/**
 Resolving Ethernet addresses in addr_resolv.c: the table of well-known address
 ranges, tried from the longest mask down, and the manufacturer table with its
 negative cache.
 */
module EtherResolve {
  import opened Basics
  import opened Bits
  import opened OctetMask

  type Address = a: seq<byte> | |a| == 6 witness [0, 0, 0, 0, 0, 0]

  /* ---------- the ranges ---------- */

  /** The longest mask from hi down to lo under which the address is a key of the table. */
  function LongestHit(wka: map<seq<byte>, string>, a: Address, hi: nat, lo: nat): (r: Option<nat>)
    requires lo <= hi + 1
    ensures r.Some? ==> lo <= r.value <= hi && MaskAddr(a, r.value) in wka
    decreases hi + 1 - lo
  {
    if hi + 1 == lo then None
    else if MaskAddr(a, hi) in wka then Some(hi)
    else if hi == 0 then None
    else LongestHit(wka, a, hi - 1, lo)
  }

  lemma {:induction false} LongestHitIs(wka: map<seq<byte>, string>, a: Address, hi: nat, lo: nat)
    requires lo <= hi + 1
    ensures match LongestHit(wka, a, hi, lo)
            case None => forall m | lo <= m <= hi :: MaskAddr(a, m) !in wka
            case Some(h) => forall m | h < m <= hi :: MaskAddr(a, m) !in wka
    decreases hi + 1 - lo
  {
    if hi + 1 > lo && MaskAddr(a, hi) !in wka && hi > 0 {
      LongestHitIs(wka, a, hi - 1, lo);
    }
  }

  /** The octets printed after a range's name: those the mask does not cover, the first without its masked bits. */
  function Suffix(a: Address, mask: nat): seq<byte>
    requires mask < 48
  {
    [LowBits(a[mask / 8], mask % 8)] + a[mask / 8 + 1..]
  }

  /** octet & (0xFF >> n) */
  function LowBits(b: byte, n: nat): byte
    requires n <= 8
  {
    LowBitsIs(b, n);
    BitAnd(b, Pow2(8 - n) - 1)
  }

  lemma LowBitsIs(b: byte, n: nat)
    requires n <= 8
    ensures BitAnd(b, Pow2(8 - n) - 1) == b % Pow2(8 - n) <= b
  {
    hide BitAnd, Pow2;
    AndLow(b, 8 - n);
  }

  lemma OctetParts(b: byte, n: nat)
    requires n <= 8
    ensures MaskOctet(b, n) + LowBits(b, n) == b
  {
    MaskOctetIs(b, n);
    LowBitsIs(b, n);
  }

  /** A range and a suffix make up one address. */
  function Join(range: seq<int>, mask: nat, suffix: seq<int>): seq<int>
    requires mask < 48 && |range| == 6 && |suffix| == 6 - mask / 8
  {
    var g := mask / 8;
    range[..g] + [range[g] + suffix[0]] + suffix[1..]
  }

  /** No bit of the address is lost or shown twice. */
  lemma {:induction false} SuffixRecoversAddress(a: Address, mask: nat)
    requires mask < 48
    ensures Join(MaskAddr(a, mask), mask, Suffix(a, mask)) == a
  {
    hide MaskOctet, LowBits;
    var g := mask / 8;
    OctetParts(a[g], mask - 8 * g);
    if mask == 8 * g {
      MaskOctetEnds(a[g]);
    }
    assert MaskAddr(a, mask)[..g] == a[..g];
    assert MaskAddr(a, mask)[g] == MaskOctet(a[g], mask - 8 * g);
    assert a == a[..g] + [a[g]] + a[g + 1..];
  }

  /* ---------- the manufacturer table ---------- */

  datatype Status = Unresolved | ResolvedName(name: string)

  /** hexaddr is rendered from the address the entry was made for. */
  datatype Manuf = Manuf(status: Status, addr: seq<byte>)

  function ManufKey(a: seq<byte>): nat
    requires |a| >= 3
  {
    a[0] as int * 0x10000 + a[1] as int * 0x100 + a[2] as int
  }

  /** key & 0x00010000 */
  predicate Multicast(key: nat) {
    key / 0x10000 % 2 == 1
  }

  /** What an uncached table of vendors says: the exact key, else the key without the multicast bit, else nothing. */
  function Rule(vendors: map<nat, string>, key: nat): Status {
    if key in vendors then ResolvedName(vendors[key])
    else if Multicast(key) && key - 0x10000 in vendors then ResolvedName(vendors[key - 0x10000])
    else Unresolved
  }

  /** The cached table answers like Rule for every key. */
  ghost predicate Transparent(manuf: map<nat, Manuf>, vendors: map<nat, string>) {
    forall key: nat :: Answer(manuf, key) == Rule(vendors, key)
  }

  /** manuf_name_lookup without its insertion */
  function Answer(manuf: map<nat, Manuf>, key: nat): Status {
    if key in manuf then manuf[key].status
    else if Multicast(key) && key - 0x10000 in manuf then manuf[key - 0x10000].status
    else Unresolved
  }

  /** A failed lookup puts an unresolved entry into the table. */
  function Cached(manuf: map<nat, Manuf>, a: seq<byte>): map<nat, Manuf>
    requires |a| >= 3
  {
    var key := ManufKey(a);
    if key in manuf || (Multicast(key) && key - 0x10000 in manuf) then manuf
    else manuf[key := Manuf(Unresolved, a[..3])]
  }

  predicate NegativelyCached(manuf: map<nat, Manuf>, key: nat) {
    key in manuf && manuf[key].status == Unresolved
  }

  /** The table holds the vendors, and beside them only unresolved entries for keys the rule leaves unresolved. */
  ghost predicate Consistent(manuf: map<nat, Manuf>, vendors: map<nat, string>) {
    && (forall key | key in vendors :: key in manuf && manuf[key].status == ResolvedName(vendors[key]))
    && (forall key | key in manuf && key !in vendors ::
          manuf[key].status == Unresolved && Rule(vendors, key) == Unresolved)
  }

  lemma ConsistentIsTransparent(manuf: map<nat, Manuf>, vendors: map<nat, string>)
    requires Consistent(manuf, vendors)
    ensures Transparent(manuf, vendors)
  {
  }

  /**
   Negative caching keeps the table consistent. It makes an entry exactly if there is none for
   the address, nor for the address without the multicast bit.
   */
  lemma {:induction false} CachingIsTransparent(manuf: map<nat, Manuf>, vendors: map<nat, string>, a: seq<byte>)
    requires |a| >= 3 && Consistent(manuf, vendors)
    ensures Consistent(Cached(manuf, a), vendors)
    ensures var known := ManufKey(a) in manuf || (a[0] % 2 == 1 && ManufKey([a[0] - 1] + a[1..]) in manuf);
            if known then Cached(manuf, a) == manuf
            else Cached(manuf, a).Keys == manuf.Keys + {ManufKey(a)} && NegativelyCached(Cached(manuf, a), ManufKey(a))
  {
    KeyIsThreeOctets(a, a);
  }

  /**
   Loading a vendor into a table that has already been asked keeps it transparent exactly
   if its multicast form has not been cached as unresolved (or it is a multicast key itself).
   */
  lemma {:induction false} LoadingAfterLookups(manuf: map<nat, Manuf>, vendors: map<nat, string>, a: seq<byte>, name: string)
    requires |a| >= 3 && Consistent(manuf, vendors)
    ensures var key := ManufKey(a);
            var manuf', vendors' := manuf[key := Manuf(ResolvedName(name), a[..3])], vendors[key := name];
            && (Transparent(manuf', vendors') <==> Multicast(key) || !NegativelyCached(manuf, key + 0x10000))
            && (Transparent(manuf', vendors') ==> Consistent(manuf', vendors'))
  {
    var key := ManufKey(a);
    var manuf', vendors' := manuf[key := Manuf(ResolvedName(name), a[..3])], vendors[key := name];
    if !Multicast(key) && NegativelyCached(manuf, key + 0x10000) {
      StaleAnswer(manuf, vendors, key, manuf'[key], name);
    } else {
      LoadingIsConsistent(manuf, vendors, key, manuf'[key], name);
      ConsistentIsTransparent(manuf', vendors');
    }
  }

  lemma MulticastForm(key: nat)
    ensures Multicast(key + 0x10000) <==> !Multicast(key)
  {
    assert (key + 0x10000) / 0x10000 == key / 0x10000 + 1;
  }

  lemma StaleAnswer(manuf: map<nat, Manuf>, vendors: map<nat, string>, key: nat, entry: Manuf, name: string)
    requires Consistent(manuf, vendors) && !Multicast(key) && NegativelyCached(manuf, key + 0x10000)
    ensures !Transparent(manuf[key := entry], vendors[key := name])
  {
    hide Multicast;
    var other := key + 0x10000;
    MulticastForm(key);
    assert Answer(manuf[key := entry], other) == Unresolved;
    assert Rule(vendors[key := name], other) == ResolvedName(name);
  }

  lemma LoadingIsConsistent(manuf: map<nat, Manuf>, vendors: map<nat, string>, key: nat, entry: Manuf, name: string)
    requires Consistent(manuf, vendors) && (Multicast(key) || !NegativelyCached(manuf, key + 0x10000))
    requires entry.status == ResolvedName(name)
    ensures Consistent(manuf[key := entry], vendors[key := name])
  {
    hide Multicast;
    var manuf', vendors' := manuf[key := entry], vendors[key := name];
    MulticastForm(key);
    forall k | k in manuf' && k !in vendors'
      ensures manuf'[k].status == Unresolved && Rule(vendors', k) == Unresolved
    {
      assert Rule(vendors, k) == Unresolved;
    }
  }

  /* ---------- eth_addr_resolve ---------- */

  datatype Resolution =
    | FromFile(name: string)                             // found in the ethers files
    | InRange(name: string, mask: nat, suffix: seq<byte>) // name_xx:xx...
    | OfVendor(name: string, suffix: seq<byte>)
    | Hex(addr: seq<byte>)

  function RangeResult(wka: map<seq<byte>, string>, a: Address, mask: nat): Resolution
    requires mask < 48 && MaskAddr(a, mask) in wka
  {
    InRange(wka[MaskAddr(a, mask)], mask, Suffix(a, mask))
  }

  function Resolve(wka: map<seq<byte>, string>, vendors: map<nat, string>, file: Option<string>, a: Address): Resolution {
    if file.Some? then FromFile(file.value)
    else
      var small := LongestHit(wka, a, 47, 24);
      if small.Some? then RangeResult(wka, a, small.value)
      else
        var vendor := Rule(vendors, ManufKey(a));
        if vendor.ResolvedName? then OfVendor(vendor.name, a[3..])
        else
          var large := LongestHit(wka, a, 23, 1);
          if large.Some? then RangeResult(wka, a, large.value) else Hex(a)
  }

  class EtherTables {
    var wka: map<seq<byte>, string>
    var manuf: map<nat, Manuf>
    ghost var vendors: map<nat, string>

    ghost predicate Valid()
      reads this
    {
      Consistent(manuf, vendors)
    }

    constructor ()
      ensures Valid() && wka == map[] && manuf == map[] && vendors == map[]
    {
      wka, manuf, vendors := map[], map[], map[];
    }

    /** wka_hash_new_entry: the key is the masked address alone, without the mask length. */
    method WkaHashNewEntry(addr: Address, name: string)
      requires Valid()
      modifies `wka
      ensures Valid() && wka == old(wka)[addr := name]
    {
      wka := wka[addr := name];
    }

    /** manuf_hash_new_entry with a name, while the vendors are being loaded */
    method LoadVendor(addr: seq<byte>, name: string)
      requires Valid() && |addr| >= 3
      requires Multicast(ManufKey(addr)) || !NegativelyCached(manuf, ManufKey(addr) + 0x10000)
      modifies `manuf, `vendors
      ensures Valid() && vendors == old(vendors)[ManufKey(addr) := name]
    {
      LoadingAfterLookups(manuf, vendors, addr, name);
      vendors := vendors[ManufKey(addr) := name];
      manuf := manuf[ManufKey(addr) := Manuf(ResolvedName(name), addr[..3])];
    }

    method ManufNameLookup(addr: Address) returns (r: Manuf)
      requires Valid()
      modifies `manuf
      ensures Valid() && r.status == Rule(vendors, ManufKey(addr))
      ensures manuf == Cached(old(manuf), addr)
    {
      ConsistentIsTransparent(manuf, vendors);
      assert Answer(manuf, ManufKey(addr)) == Rule(vendors, ManufKey(addr));
      CachingIsTransparent(manuf, vendors, addr);
      var key := ManufKey(addr);
      if key in manuf {
        return manuf[key];
      }
      if Multicast(key) {
        key := key - 0x10000;
        if key in manuf {
          return manuf[key];
        }
      }
      r := Manuf(Unresolved, addr[..3]);
      manuf := manuf[ManufKey(addr) := r];
    }

    method WkaNameLookup(addr: Address, mask: nat) returns (name: Option<string>)
      requires mask < 48
      ensures name == if MaskAddr(addr, mask) in wka then Some(wka[MaskAddr(addr, mask)]) else None
    {
      var masked := new byte[6](k requires 0 <= k < 6 => addr[k]);
      assert masked[..] == addr;
      MaskInPlace(masked, mask);
      name := if masked[..] in wka then Some(wka[masked[..]]) else None;
    }

    /** One of the do-while loops: base + 7 down to base + last. */
    method TryMasks(addr: Address, base: nat, last: nat) returns (r: Option<Resolution>)
      requires base <= 40 && base % 8 == 0 && last <= 7
      ensures var hit := LongestHit(wka, addr, base + 7, base + last);
              r == if hit.Some? then Some(RangeResult(wka, addr, hit.value)) else None
    {
      hide MaskAddr, Suffix;
      var mask := 7;
      while true
        invariant last <= mask <= 7
        invariant LongestHit(wka, addr, base + mask, base + last) == LongestHit(wka, addr, base + 7, base + last)
        decreases mask
      {
        var name := WkaNameLookup(addr, base + mask);
        if name.Some? {
          return Some(InRange(name.value, base + mask, Suffix(addr, base + mask)));
        }
        if mask == last {
          assert LongestHit(wka, addr, base + mask, base + last) == None;
          return None;
        }
        mask := mask - 1;
      }
    }

    method EthAddrResolve(addr: Address, file: Option<string>) returns (r: Resolution)
      requires Valid()
      modifies `manuf
      ensures Valid() && r == Resolve(wka, vendors, file, addr)
    {
      hide MaskAddr, Suffix, Rule, LongestHit, ManufKey, Cached, Consistent;
      if file.Some? {
        return FromFile(file.value);
      }
      LongestHitSplit(wka, addr, 47, 40, 24);
      LongestHitSplit(wka, addr, 39, 32, 24);
      var hit := TryMasks(addr, 40, 0);
      if hit.Some? { return hit.value; }
      hit := TryMasks(addr, 32, 0);
      if hit.Some? { return hit.value; }
      hit := TryMasks(addr, 24, 0);
      if hit.Some? { return hit.value; }
      var vendor := ManufNameLookup(addr);
      if vendor.status != Unresolved {
        return OfVendor(vendor.status.name, addr[3..]);
      }
      LongestHitSplit(wka, addr, 23, 16, 1);
      LongestHitSplit(wka, addr, 15, 8, 1);
      hit := TryMasks(addr, 16, 0);
      if hit.Some? { return hit.value; }
      hit := TryMasks(addr, 8, 0);
      if hit.Some? { return hit.value; }
      hit := TryMasks(addr, 0, 1);
      if hit.Some? { return hit.value; }
      return Hex(addr);
    }
  }

  /** Masks hi..mid first, then mid-1..lo. */
  lemma {:induction false} LongestHitSplit(wka: map<seq<byte>, string>, a: Address, hi: nat, mid: nat, lo: nat)
    requires 0 < lo <= mid <= hi + 1
    ensures LongestHit(wka, a, hi, lo) ==
            if LongestHit(wka, a, hi, mid).Some? then LongestHit(wka, a, hi, mid) else LongestHit(wka, a, mid - 1, lo)
    decreases hi
  {
    hide MaskAddr;
    if mid <= hi && MaskAddr(a, hi) !in wka {
      LongestHitSplit(wka, a, hi - 1, mid, lo);
    }
  }

  /* ---------- what the ranges guarantee ---------- */

  /**
   An address inside a stored range of length p >= 24 is resolved by the range table,
   at a mask of at least p: before the manufacturer table is asked.
   */
  lemma {:induction false} SmallRangesWin(wka: map<seq<byte>, string>, vendors: map<nat, string>, a: Address, p: nat)
    requires 24 <= p <= 47 && MaskAddr(a, p) in wka
    ensures var r := Resolve(wka, vendors, None, a);
            r.InRange? && p <= r.mask <= 47 && r.name == wka[MaskAddr(a, r.mask)]
    ensures forall m | Resolve(wka, vendors, None, a).mask < m <= 47 :: MaskAddr(a, m) !in wka
  {
    hide MaskAddr;
    LongestHitIs(wka, a, 47, 24);
  }

  /** A range of length below 24 is used only if the vendor is unknown and no smaller range applies. */
  lemma {:induction false} LargeRangesLast(wka: map<seq<byte>, string>, vendors: map<nat, string>, a: Address)
    ensures var r := Resolve(wka, vendors, None, a);
            r.InRange? && r.mask < 24 ==>
              Rule(vendors, ManufKey(a)) == Unresolved && forall m | r.mask < m <= 47 :: MaskAddr(a, m) !in wka
  {
    hide MaskAddr;
    LongestHitIs(wka, a, 47, 24);
    LongestHitIs(wka, a, 23, 1);
  }

  /* ---------- the answer, said without the order of the tables ---------- */

  /** The key is the first three octets, no more and no less. */
  lemma {:induction false} KeyIsThreeOctets(a: seq<byte>, b: seq<byte>)
    requires |a| >= 3 && |b| >= 3
    ensures ManufKey(a) == ManufKey(b) <==> a[..3] == b[..3]
    ensures Multicast(ManufKey(a)) <==> a[0] % 2 == 1
    ensures a[0] % 2 == 1 ==> ManufKey(a) - 0x10000 == ManufKey([a[0] - 1] + a[1..])
  {
    assert ManufKey(a) / 0x10000 == a[0];
    assert a[..3] == [a[0], a[1], a[2]] && b[..3] == [b[0], b[1], b[2]];
  }

  /** The vendor's octets, as they are or without the multicast bit, which is the last bit of the first octet. */
  predicate Given(vendors: map<nat, string>, octets: seq<byte>, name: string)
    requires |octets| == 3
  {
    ManufKey(octets) in vendors && vendors[ManufKey(octets)] == name
  }

  predicate GivenAtAll(vendors: map<nat, string>, octets: seq<byte>)
    requires |octets| == 3
  {
    ManufKey(octets) in vendors
  }

  /** The name of the vendor of an address: that given for its first three octets, or else for these without the multicast bit. */
  predicate VendorIs(vendors: map<nat, string>, a: Address, name: string) {
    Given(vendors, a[..3], name) ||
    (!GivenAtAll(vendors, a[..3]) && a[0] % 2 == 1 && Given(vendors, [a[0] - 1, a[1], a[2]], name))
  }

  predicate NoVendor(vendors: map<nat, string>, a: Address) {
    !GivenAtAll(vendors, a[..3]) && (a[0] % 2 == 1 ==> !GivenAtAll(vendors, [a[0] - 1, a[1], a[2]]))
  }

  lemma {:induction false} RuleFindsVendor(vendors: map<nat, string>, a: Address)
    ensures forall name :: Rule(vendors, ManufKey(a)) == ResolvedName(name) <==> VendorIs(vendors, a, name)
    ensures Rule(vendors, ManufKey(a)) == Unresolved <==> NoVendor(vendors, a)
  {
    hide ManufKey, Multicast;
    KeyIsThreeOctets(a, a[..3]);
    if a[0] % 2 == 1 {
      KeyIsThreeOctets([a[0] - 1] + a[1..], [a[0] - 1, a[1], a[2]]);
    }
  }

  /**
   The answer for any tables: a name from the file before all; then the longest range of at least
   24 bits, the vendor, the longest shorter range, and the address itself. Name and suffix
   together always give the whole address.
   */
  lemma {:induction false} AnswerIs(wka: map<seq<byte>, string>, vendors: map<nat, string>, file: Option<string>, a: Address)
    ensures file.Some? ==> Resolve(wka, vendors, file, a) == FromFile(file.value)
    ensures file.None? ==>
      match Resolve(wka, vendors, file, a)
      case FromFile(_) => false
      case InRange(name, mask, suffix) =>
        && 1 <= mask <= 47 && MaskAddr(a, mask) in wka && name == wka[MaskAddr(a, mask)]
        && |suffix| == 6 - mask / 8 && Join(MaskAddr(a, mask), mask, suffix) == a
        && (forall m | mask < m <= 47 :: MaskAddr(a, m) !in wka) && (mask < 24 ==> NoVendor(vendors, a))
      case OfVendor(name, suffix) =>
        VendorIs(vendors, a, name) && suffix == a[3..] && forall m | 24 <= m <= 47 :: MaskAddr(a, m) !in wka
      case Hex(addr) => addr == a && NoVendor(vendors, a) && forall m | 1 <= m <= 47 :: MaskAddr(a, m) !in wka
  {
    hide MaskAddr, ManufKey, Join, Rule, VendorIs, NoVendor, Suffix;
    LongestHitIs(wka, a, 47, 24);
    LongestHitIs(wka, a, 23, 1);
    RuleFindsVendor(vendors, a);
    if Resolve(wka, vendors, None, a).InRange? {
      var mask := Resolve(wka, vendors, None, a).mask;
      SuffixLength(a, mask);
      SuffixRecoversAddress(a, mask);
    }
  }

  lemma SuffixLength(a: Address, mask: nat)
    requires mask < 48
    ensures |Suffix(a, mask)| == 6 - mask / 8
  {
    hide LowBits;
  }

  /** A range, as the files give it: a masked address and the length of the mask. */
  predicate IsRange(key: Address, p: nat) {
    1 <= p <= 47 && MaskAddr(key, p) == key
  }

  /** A lookup at mask m, with an address outside the range, hits the range's key. */
  predicate HitFromOutside(key: Address, p: nat, a: Address, m: nat) {
    1 <= m <= 47 && MaskAddr(a, m) == key && MaskAddr(a, p) != key
  }

  /**
   Since the key does not hold the mask length, a range of length p can be hit from outside,
   exactly if the last bit of its prefix is zero (and there is a shorter mask to hit it at).
   */
  lemma {:induction false} OutsideHits(key: Address, p: nat)
    requires IsRange(key, p)
    ensures (exists a: Address, m: nat :: HitFromOutside(key, p, a, m)) <==> p >= 2 && MaskAddr(key, p - 1) == key
  {
    hide MaskAddr;
    if exists a: Address, m: nat :: HitFromOutside(key, p, a, m) {
      var a: Address, m: nat :| HitFromOutside(key, p, a, m);
      MaskMask(a, m, p);
      MaskMask(a, m, p - 1);
    }
    if p >= 2 && MaskAddr(key, p - 1) == key {
      var a := Neighbour(key, p);
      assert HitFromOutside(key, p, a, p - 1);
    }
  }

  /**
   What that means for names: a range on its own gives its name to some address outside
   it, under the same condition.
   */
  lemma {:induction false} OutsideNamed(key: Address, p: nat, name: string)
    requires IsRange(key, p)
    ensures (exists a: Address :: MaskAddr(a, p) != key && Resolve(map[key := name], map[], None, a).InRange?)
            <==> p >= 2 && MaskAddr(key, p - 1) == key
  {
    hide MaskAddr;
    OutsideHits(key, p);
    var wka: map<seq<byte>, string> := map[key := name];
    if exists a: Address, m: nat :: HitFromOutside(key, p, a, m) {
      var a: Address, m: nat :| HitFromOutside(key, p, a, m);
      AnyHitNames(wka, a, m);
      assert MaskAddr(a, p) != key && Resolve(wka, map[], None, a).InRange?;
    }
    if exists a: Address :: MaskAddr(a, p) != key && Resolve(wka, map[], None, a).InRange? {
      var a: Address :| MaskAddr(a, p) != key && Resolve(wka, map[], None, a).InRange?;
      assert HitFromOutside(key, p, a, Resolve(wka, map[], None, a).mask);
    }
  }

  /** With no vendor known, a range that hits at any mask names the address. */
  lemma AnyHitNames(wka: map<seq<byte>, string>, a: Address, m: nat)
    requires 1 <= m <= 47 && MaskAddr(a, m) in wka
    ensures Resolve(wka, map[], None, a).InRange?
  {
    hide MaskAddr;
    LongestHitIs(wka, a, 47, 24);
    LongestHitIs(wka, a, 23, 1);
  }

  /**
   A range that has been entered names every address inside it that no longer entry hits,
   if it is at least 24 bits long, or if the vendor is unknown.
   */
  lemma {:induction false} EnteredRangeNames(
      wka: map<seq<byte>, string>, vendors: map<nat, string>, key: Address, p: nat, name: string, a: Address)
    requires IsRange(key, p) && MaskAddr(a, p) == key
    requires forall m | p < m <= 47 :: MaskAddr(a, m) !in wka[key := name]
    requires 24 <= p || Rule(vendors, ManufKey(a)) == Unresolved
    ensures Resolve(wka[key := name], vendors, None, a) == InRange(name, p, Suffix(a, p))
  {
    hide MaskAddr, Suffix, Rule, ManufKey;
    var now := wka[key := name];
    LongestHitIs(now, a, 47, 24);
    LongestHitIs(now, a, 23, 1);
    if p >= 24 {
      assert LongestHit(now, a, 47, 24) == Some(p);
    } else {
      assert LongestHit(now, a, 47, 24) == None && LongestHit(now, a, 23, 1) == Some(p);
    }
  }

  /** The address that differs from the key in bit p - 1 only. */
  lemma Neighbour(key: Address, p: nat) returns (a: Address)
    requires 1 <= p <= 47 && MaskAddr(key, p - 1) == key
    ensures MaskAddr(a, p - 1) == key && MaskAddr(a, p) != key
  {
    hide MaskOctet;
    var g, j := (p - 1) / 8, (p - 1) % 8;
    assert key[g] == MaskedOctet(key, p - 1, g);
    assert j == 0 ==> key[g] == 0;
    var b := SetBit(key[g], j);
    a := key[g := b];
    forall k: nat | k < 6 ensures MaskedOctet(a, p - 1, k) == key[k] {
      assert key[k] == MaskedOctet(key, p - 1, k);
      MaskOctetEnds(b);
    }
    assert MaskAddr(a, p - 1) == key;
    MaskOctetEnds(b);
    assert MaskAddr(a, p)[g] == MaskedOctet(a, p, g);
  }

  lemma SetBit(b: byte, j: nat) returns (c: byte)
    requires j < 8 && (if j == 0 then b == 0 else MaskOctet(b, j) == b)
    ensures MaskOctet(c, j) == b && MaskOctet(c, j + 1) != b && (j == 7 ==> c != b)
  {
    hide BitAnd, MaskOctet, Pow2, RoundDown;
    MaskOctetEnds(b);
    MaskOctetValue(b, j);
    PowFacts(j);
    AddHalf(b, Pow2(7 - j), Pow2(j));
    c := b + Pow2(7 - j);
    MaskOctetValue(c, j);
    MaskOctetValue(c, j + 1);
  }

  lemma PowFacts(j: nat)
    requires j < 8
    ensures Pow2(8 - j) == 2 * Pow2(7 - j) && 0x100 == Pow2(j) * (2 * Pow2(7 - j))
  {
    Pow2Add(j, 8 - j);
    assert Pow2(8) == 0x100;
  }

  lemma AddHalf(b: byte, p: nat, q: nat)
    requires p > 0 && RoundDown(b, 2 * p) == b && 0x100 == q * (2 * p)
    ensures b + p < 0x100 && RoundDown(b + p, 2 * p) == b && RoundDown(b + p, p) == b + p
  {
    var n := 2 * p;
    var k := b / n;
    assert b == k * n;
    ModUnique(b + p, n, k, p);
    assert k * n == (2 * k) * p;
    ModUnique(b + p, p, 2 * k + 1, 0);
    MulSign(q - k, n);
    MulSign(k - q, n);
    assert (q - k) * n == 0x100 - b;
  }
}
