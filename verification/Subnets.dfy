/**
 The subnet tables of addr_resolv.c: for each prefix length a hash table of chains,
 filled by subnet_entry_set and searched, longest prefix first, by subnet_lookup.
 Proved against the plain list of definitions given so far.
 */
module Subnets {
  import opened Basics
  import opened Bits

  const SUBNETLENGTHSIZE := 32
  const HASHHOSTSIZE := 2048
  const MAXNAMELEN := 64

  type Addr = x: int | 0 <= x < 0x1_0000_0000

  /** ip_get_subnet_mask (addr_and_mask.c) */
  function SubnetMask(maskLength: nat): Addr
    requires maskLength <= 32
  {
    match maskLength
    case 0 => 0x00000000 case 1 => 0x80000000 case 2 => 0xc0000000 case 3 => 0xe0000000
    case 4 => 0xf0000000 case 5 => 0xf8000000 case 6 => 0xfc000000 case 7 => 0xfe000000
    case 8 => 0xff000000 case 9 => 0xff800000 case 10 => 0xffc00000 case 11 => 0xffe00000
    case 12 => 0xfff00000 case 13 => 0xfff80000 case 14 => 0xfffc0000 case 15 => 0xfffe0000
    case 16 => 0xffff0000 case 17 => 0xffff8000 case 18 => 0xffffc000 case 19 => 0xffffe000
    case 20 => 0xfffff000 case 21 => 0xfffff800 case 22 => 0xfffffc00 case 23 => 0xfffffe00
    case 24 => 0xffffff00 case 25 => 0xffffff80 case 26 => 0xffffffc0 case 27 => 0xffffffe0
    case 28 => 0xfffffff0 case 29 => 0xfffffff8 case 30 => 0xfffffffc case 31 => 0xfffffffe
    case 32 => 0xffffffff
  }

  function Masked(a: Addr, n: nat): nat
    requires n <= 32
  {
    BitAnd(a, SubnetMask(n))
  }

  /** The first n bits, most significant first, are the same. */
  predicate SamePrefix(a: Addr, b: Addr, n: nat)
    requires n <= 32
  {
    a / Pow2(32 - n) == b / Pow2(32 - n)
  }

  lemma MaskStep(n: nat)
    requires 0 < n <= 32
    ensures 2 * (0x1_0000_0000 - SubnetMask(n)) == 0x1_0000_0000 - SubnetMask(n - 1)
  {
    match n
    case 1 => case 2 => case 3 => case 4 => case 5 => case 6 => case 7 => case 8 => case 9 => case 10 =>
    case 11 => case 12 => case 13 => case 14 => case 15 => case 16 => case 17 => case 18 => case 19 =>
    case 20 => case 21 => case 22 => case 23 => case 24 => case 25 => case 26 => case 27 => case 28 =>
    case 29 => case 30 => case 31 => case 32 =>
  }

  /** The table holds n one bits followed by 32 - n zeros. */
  lemma {:induction false} MaskValue(n: nat)
    requires n <= 32
    ensures SubnetMask(n) == 0x1_0000_0000 - Pow2(32 - n)
    decreases 32 - n
  {
    if n < 32 {
      MaskStep(n + 1);
      MaskValue(n + 1);
    }
  }

  /** Comparing addresses under the table's mask of length n is comparing their first n bits. */
  lemma {:induction false} MaskComparesPrefix(a: Addr, b: Addr, n: nat)
    requires n <= 32
    ensures Masked(a, n) == Masked(b, n) <==> SamePrefix(a, b, n)
  {
    hide SubnetMask, BitAnd, Pow2;
    var p := Pow2(32 - n);
    MaskValue(n);
    WholeWord();
    AndMask(a, n, 32);
    AndMask(b, n, 32);
    assert a - a % p == (a / p) * p && b - b % p == (b / p) * p;
    if Masked(a, n) == Masked(b, n) {
      MulCancel(a / p, b / p, p);
    }
  }

  /** What g_strlcpy keeps of a name. */
  function Truncated(name: string): string {
    if |name| < MAXNAMELEN then name else name[..MAXNAMELEN - 1]
  }

  /** A name is kept whole if it has fewer than 64 characters, else its first 63. */
  predicate Keeps(kept: string, name: string) {
    if |name| <= 63 then kept == name else |kept| == 63 && kept <= name
  }

  /** A call of subnet_entry_set. */
  datatype Definition = Definition(addr: Addr, maskLength: nat, name: string) {
    predicate Valid() {
      1 <= maskLength <= 32
    }

    predicate Contains(a: Addr)
      requires Valid()
    {
      Masked(a, maskLength) == Masked(addr, maskLength)
    }

    predicate Defines(length: nat, masked: nat)
      requires Valid()
    {
      maskLength == length && Masked(addr, maskLength) == masked
    }
  }

  /** A definition contains the addresses that begin with the bits of its own address, as many as its mask is long. */
  lemma {:induction false} ContainsMeans(d: Definition, a: Addr)
    requires 1 <= d.maskLength <= 32
    ensures d.Contains(a) <==> a / Pow2(32 - d.maskLength) == d.addr / Pow2(32 - d.maskLength)
  {
    hide Masked, Pow2;
    MaskComparesPrefix(a, d.addr, d.maskLength);
  }

  predicate ValidHistory(h: seq<Definition>) {
    forall i :: 0 <= i < |h| ==> h[i].Valid()
  }

  /** The name in the first definition of this subnet. */
  function FirstDefined(h: seq<Definition>, length: nat, masked: nat): Option<string>
    requires ValidHistory(h)
  {
    if h == [] then None
    else
      var last := h[|h| - 1];
      var earlier := FirstDefined(h[..|h| - 1], length, masked);
      if earlier.Some? then earlier
      else if last.Defines(length, masked) then Some(Truncated(last.name))
      else None
  }

  lemma {:induction false} FirstDefinedMeans(h: seq<Definition>, length: nat, masked: nat)
    requires ValidHistory(h)
    ensures match FirstDefined(h, length, masked)
            case None => forall i | 0 <= i < |h| :: !h[i].Defines(length, masked)
            case Some(name) => exists i | 0 <= i < |h| :: IsFirst(h, i, length, masked) && Keeps(name, h[i].name)
  {
    hide Masked, Truncated, Definition.Defines;
    if h != [] {
      var front := h[..|h| - 1];
      FirstDefinedMeans(front, length, masked);
      if FirstDefined(front, length, masked).Some? {
        var i :| 0 <= i < |front| && IsFirst(front, i, length, masked)
                 && Keeps(FirstDefined(front, length, masked).value, front[i].name);
        assert IsFirst(h, i, length, masked);
      } else if h[|h| - 1].Defines(length, masked) {
        assert IsFirst(h, |h| - 1, length, masked);
        TruncatedKeeps(h[|h| - 1].name);
      }
    }
  }

  lemma TruncatedKeeps(name: string)
    ensures Keeps(Truncated(name), name)
  {
  }

  predicate IsFirst(h: seq<Definition>, i: nat, length: nat, masked: nat)
    requires ValidHistory(h) && i < |h|
  {
    h[i].Defines(length, masked) && forall j | 0 <= j < i :: !h[j].Defines(length, masked)
  }

  /* ---------- the tables ---------- */

  datatype Entry = Entry(addr: nat, name: string)

  type Table = seq<seq<Entry>>

  function FirstInChain(chain: seq<Entry>, masked: nat): Option<string> {
    if chain == [] then None
    else
      var earlier := FirstInChain(chain[..|chain| - 1], masked);
      if earlier.Some? then earlier
      else if chain[|chain| - 1].addr == masked then Some(chain[|chain| - 1].name)
      else None
  }

  lemma {:induction false} FirstInChainAt(chain: seq<Entry>, masked: nat, k: nat)
    requires k < |chain| && chain[k].addr == masked
    ensures FirstInChain(chain, masked).Some?
    ensures (forall j | 0 <= j < k :: chain[j].addr != masked) ==> FirstInChain(chain, masked) == Some(chain[k].name)
  {
    if k < |chain| - 1 {
      FirstInChainAt(chain[..|chain| - 1], masked, k);
    } else {
      NotInChain(chain[..k], masked);
    }
  }

  lemma {:induction false} NotInChain(chain: seq<Entry>, masked: nat)
    ensures (forall j | 0 <= j < |chain| :: chain[j].addr != masked) ==> FirstInChain(chain, masked) == None
  {
    if chain != [] {
      NotInChain(chain[..|chain| - 1], masked);
    }
  }

  /** What subnet_lookup did not find. */
  datatype SubnetEntry = SubnetEntry(mask: Addr, maskLength: nat, name: Option<string>)

  class SubnetTables {
    /** HASH_IPV4_ADDRESS: any function into the buckets will do. */
    const hash: nat -> nat

    var haveSubnetEntry: bool
    var tables: seq<Option<Table>>
    ghost var history: seq<Definition>

    /** What the tables answer for one length. */
    function Find(t: Option<Table>, masked: nat): Option<string>
      requires hash(masked) < HASHHOSTSIZE
      requires t.Some? ==> |t.value| == HASHHOSTSIZE
    {
      if t.None? then None else FirstInChain(t.value[hash(masked)], masked)
    }

    ghost predicate Shape()
      reads this
    {
      && (forall a :: hash(a) < HASHHOSTSIZE)
      && |tables| == SUBNETLENGTHSIZE
      && (forall i | 0 <= i < SUBNETLENGTHSIZE :: tables[i].Some? ==> |tables[i].value| == HASHHOSTSIZE)
      && ValidHistory(history)
      && (haveSubnetEntry <==> history != [])
    }

    /** The table of each length knows, for each subnet, the first name it was given. */
    ghost predicate Valid()
      reads this
    {
      && Shape()
      && forall i: nat, masked: nat | i < SUBNETLENGTHSIZE ::
           Find(tables[i], masked) == FirstDefined(history, i + 1, masked)
    }

    constructor (hash: nat -> nat)
      requires forall a :: hash(a) < HASHHOSTSIZE
      ensures Valid() && history == []
    {
      this.hash := hash;
      haveSubnetEntry := false;
      tables := seq(SUBNETLENGTHSIZE, _ => None);
      history := [];
    }

    /** subnet_entry_set */
    method Set(subnetAddr: Addr, maskLength: nat, name: string)
      requires Valid() && 1 <= maskLength <= 32
      modifies `haveSubnetEntry, `tables, `history
      ensures Valid()
      ensures history == old(history) + [Definition(subnetAddr, maskLength, name)]
    {
      hide SubnetMask, Masked, Truncated, FirstInChain, FirstDefined;
      ghost var d := Definition(subnetAddr, maskLength, name);
      var masked := Masked(subnetAddr, maskLength);
      var table := if tables[maskLength - 1].None? then seq(HASHHOSTSIZE, _ => []) else tables[maskLength - 1].value;
      var chain := table[hash(masked)];
      var k := 0;
      // the last node of the chain is never compared
      while k + 1 < |chain|
        invariant k <= |chain|
      {
        if chain[k].addr == masked {
          FirstInChainAt(chain, masked, k);
          assert Find(tables[maskLength - 1], masked) == FirstDefined(history, maskLength, masked);
          FirstDefinedMeans(history, maskLength, masked);
          history := history + [d];
          tables := tables[maskLength - 1 := Some(table)];
          Repeated(old(tables), table, masked, old(history), d);
          return;
        }
        k := k + 1;
      }
      table := table[hash(masked) := chain + [Entry(masked, Truncated(name))]];
      tables := tables[maskLength - 1 := Some(table)];
      haveSubnetEntry := true;
      history := history + [d];
      Appended(old(tables), table, masked, old(history), d);
    }

    /** Appending a node answers like appending a definition, whether or not the subnet is in the chain already. */
    lemma Appended(was: seq<Option<Table>>, table: Table, masked: nat, h: seq<Definition>, d: Definition)
      requires Shape() && ValidHistory(h) && d.Valid() && masked == Masked(d.addr, d.maskLength)
      requires |was| == SUBNETLENGTHSIZE
      requires forall i | 0 <= i < SUBNETLENGTHSIZE :: was[i].Some? ==> |was[i].value| == HASHHOSTSIZE
      requires forall i: nat, m: nat | i < SUBNETLENGTHSIZE :: Find(was[i], m) == FirstDefined(h, i + 1, m)
      requires history == h + [d] && tables == was[d.maskLength - 1 := Some(table)]
      requires var old' := was[d.maskLength - 1];
               var t := if old'.None? then seq(HASHHOSTSIZE, _ => []) else old'.value;
               table == t[hash(masked) := t[hash(masked)] + [Entry(masked, Truncated(d.name))]]
      ensures Valid()
    {
      hide SubnetMask, Masked, Truncated, FirstInChain;
      forall i: nat, m: nat | i < SUBNETLENGTHSIZE
        ensures Find(tables[i], m) == FirstDefined(history, i + 1, m)
      {
        assert history[..|history| - 1] == h;
        assert Find(was[i], m) == FirstDefined(h, i + 1, m);
        if i == d.maskLength - 1 {
          AppendedTo(was[i], table, masked, m, Truncated(d.name));
        }
      }
    }

    lemma AppendedTo(was: Option<Table>, table: Table, masked: nat, m: nat, name: string)
      requires hash(m) < HASHHOSTSIZE && hash(masked) < HASHHOSTSIZE
      requires was.Some? ==> |was.value| == HASHHOSTSIZE
      requires var t := if was.None? then seq(HASHHOSTSIZE, _ => []) else was.value;
               table == t[hash(masked) := t[hash(masked)] + [Entry(masked, name)]]
      ensures Find(Some(table), m) ==
              if Find(was, m).Some? then Find(was, m) else if m == masked then Some(name) else None
    {
      var t := if was.None? then seq(HASHHOSTSIZE, _ => []) else was.value;
      var chain := table[hash(m)];
      assert FirstInChain(t[hash(m)], m) == Find(was, m);
      if hash(m) == hash(masked) {
        assert chain[..|chain| - 1] == t[hash(m)];
      }
    }

    lemma Repeated(was: seq<Option<Table>>, table: Table, masked: nat, h: seq<Definition>, d: Definition)
      requires Shape() && ValidHistory(h) && d.Valid() && masked == Masked(d.addr, d.maskLength)
      requires |was| == SUBNETLENGTHSIZE
      requires forall i | 0 <= i < SUBNETLENGTHSIZE :: was[i].Some? ==> |was[i].value| == HASHHOSTSIZE
      requires forall i: nat, m: nat | i < SUBNETLENGTHSIZE :: Find(was[i], m) == FirstDefined(h, i + 1, m)
      requires history == h + [d] && was[d.maskLength - 1] == Some(table)
      requires tables == was && FirstInChain(table[hash(masked)], masked).Some?
      ensures Valid()
    {
      hide SubnetMask, Masked, Truncated, FirstInChain;
      forall i: nat, m: nat | i < SUBNETLENGTHSIZE
        ensures Find(tables[i], m) == FirstDefined(history, i + 1, m)
      {
        assert history[..|history| - 1] == h;
        assert Find(was[i], m) == FirstDefined(h, i + 1, m);
        assert Find(was[d.maskLength - 1], masked) == FirstDefined(h, d.maskLength, masked);
      }
    }

    /** subnet_lookup: the longest defined prefix that contains the address, under the first name given to it. */
    method Lookup(addr: Addr) returns (r: SubnetEntry)
      requires Valid()
      ensures r.maskLength <= 32 && r.mask == SubnetMask(r.maskLength)
      ensures r.maskLength == 0 <==> r.name.None?
      ensures forall i | 0 <= i < |history| :: history[i].Contains(addr) ==> history[i].maskLength <= r.maskLength
      ensures r.maskLength > 0 ==>
                exists i | 0 <= i < |history| ::
                  && IsFirst(history, i, r.maskLength, Masked(addr, r.maskLength))
                  && history[i].Contains(addr)
                  && Keeps(r.name.value, history[i].name)
    {
      hide SubnetMask, Masked, FirstDefined, FirstInChain, Truncated;
      var i := SUBNETLENGTHSIZE;
      while haveSubnetEntry && i > 0
        invariant 0 <= i <= SUBNETLENGTHSIZE
        invariant forall k | 0 <= k < |history| :: history[k].Contains(addr) ==> history[k].maskLength <= i
      {
        i := i - 1;
        var masked := Masked(addr, i + 1);
        FirstDefinedMeans(history, i + 1, masked);
        assert Find(tables[i], masked) == FirstDefined(history, i + 1, masked);
        if tables[i].Some? {
          var chain := tables[i].value[hash(masked)];
          var k := 0;
          while k < |chain| && chain[k].addr != masked
            invariant 0 <= k <= |chain|
            invariant forall j | 0 <= j < k :: chain[j].addr != masked
          {
            k := k + 1;
          }
          if k < |chain| {
            FirstInChainAt(chain, masked, k);
            return SubnetEntry(SubnetMask(i + 1), i + 1, Some(chain[k].name));
          }
          NotInChain(chain, masked);
        }
        assert forall k | 0 <= k < |history| :: history[k].Contains(addr) ==> history[k].maskLength <= i;
      }
      return SubnetEntry(SubnetMask(0), 0, None);
    }
  }
}
