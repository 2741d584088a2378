/**
 The iograph request of sharkd (sharkd_session.c, ui/io_graph_item.c): packets counted in
 a table that grows with the latest interval, and the table written out without its zeros.
 */
module IoGraph {
  import opened Basics
  import Bits

  const MAX_ITEMS: nat := 250000  // SHARKD_IOGRAPH_MAX_ITEMS

  /** counted: the dissection holds the field the graph asks for, or the graph asks for none. */
  datatype Packet = Packet(relTs: Time, pktLen: uint32, counted: bool)

  datatype Item = Item(frames: nat, bytes: nat)

  const EMPTY := Item(0, 0)

  /** get_io_graph_index; interval and result are C ints. */
  function GraphIndex(relTs: Time, interval: uint32): int
    requires 0 < interval
  {
    var t := if relTs.nsecs < 0 then Time(relTs.secs - 1, relTs.nsecs + 1000000000) else relTs;
    if t.secs < 0 then -1
    else Int32(TruncDiv(t.secs * 1000 + TruncDiv(t.nsecs, 1000000), Int32(interval)))
  }

  /** For times and intervals that fit: -1 for a packet before the first, else the whole number of intervals before it. */
  lemma {:induction false} GraphIndexIs(relTs: Time, interval: uint32)
    requires 0 < interval < 0x8000_0000 && -1_000_000_000 < relTs.nsecs < 1_000_000_000
    requires relTs.secs * 1000 + 1000 <= 0x8000_0000
    ensures var ns := relTs.secs * 1_000_000_000 + relTs.nsecs;
            GraphIndex(relTs, interval) == if ns < 0 then -1 else (ns / 1_000_000) / interval
  {
    hide TruncDiv, Int32;
    var ns := relTs.secs * 1_000_000_000 + relTs.nsecs;
    if 0 <= ns {
      var t := if relTs.nsecs < 0 then Time(relTs.secs - 1, relTs.nsecs + 1_000_000_000) else relTs;
      TruncDivOfNat(t.nsecs, 1000000);
      assert ns / 1_000_000 == t.secs * 1000 + t.nsecs / 1000000;
      IndexOfMs(ns / 1_000_000, interval);
    }
  }

  lemma IndexOfMs(ms: nat, interval: nat)
    requires ms < 0x8000_0000 && 0 < interval < 0x8000_0000
    ensures Int32(interval) != 0 && Int32(TruncDiv(ms, Int32(interval))) == ms / interval
  {
    hide TruncDiv, Int32;
    Int32OfSmall(interval);
    TruncDivOfNat(ms, interval);
    QuotientBound(ms, interval);
    Int32OfSmall(ms / interval);
  }

  lemma Int32OfSmall(x: nat)
    requires x < 0x8000_0000
    ensures Int32(x) == x
  {
  }

  lemma TruncDivOfNat(a: nat, d: nat)
    requires 0 < d
    ensures TruncDiv(a, d) == a / d
  {
  }

  lemma QuotientBound(a: nat, d: nat)
    requires 0 < d
    ensures a / d <= a
  {
    if 0 < a / d {
      Bits.MulSign(d, a / d);
    }
  }

  predicate InRange(idx: int) {
    0 <= idx < MAX_ITEMS
  }

  function Padded(items: seq<Item>, n: nat): (r: seq<Item>)
    ensures |r| == if n < |items| then |items| else n
  {
    if n <= |items| then items else items + seq(n - |items|, _ => EMPTY)
  }

  function Counted(item: Item, packet: Packet): Item {
    if packet.counted then Item(item.frames + 1, item.bytes + packet.pktLen) else item
  }

  /** The table after one more packet. */
  function Added(items: seq<Item>, packet: Packet, idx: int): seq<Item> {
    if !InRange(idx) then items
    else
      var grown := Padded(items, idx + 1);
      grown[idx := Counted(grown[idx], packet)]
  }

  class Graph {
    const interval: uint32
    var spaceItems: nat
    var numItems: nat
    var items: array?<Item>

    ghost predicate Valid()
      reads this, items
    {
      0 < interval && numItems <= spaceItems &&
      (items == null ==> numItems == 0) &&
      (items != null ==>
        items.Length == spaceItems && forall k | numItems <= k < spaceItems :: items[k] == EMPTY)
    }

    ghost function Contents(): seq<Item>
      requires Valid()
      reads this, items
    {
      if items == null then [] else items[..numItems]
    }

    constructor (interval: uint32)
      requires 0 < interval
      ensures Valid() && this.interval == interval && Contents() == []
    {
      this.interval := interval;
      spaceItems, numItems, items := 0, 0, null;
    }

    /** g_realloc and reset_io_graph_items: the items so far, then empty ones. */
    method Grow(newSize: nat)
      requires Valid() && spaceItems < newSize
      modifies this
      ensures Valid() && items != null && fresh(items)
      ensures Contents() == old(Contents()) && spaceItems == newSize
    {
      var larger := new Item[newSize](_ => EMPTY);
      if items != null {
        forall k | 0 <= k < spaceItems {
          larger[k] := items[k];
        }
      }
      items, spaceItems := larger, newSize;
    }

    /** Room for n items: more space, with 1023 to spare, only if it does not suffice. */
    method Reserve(n: nat)
      requires Valid() && numItems < n
      modifies this
      ensures Valid() && items != null && numItems == n
      ensures items == old(items) || fresh(items)
      ensures Contents() == Padded(old(Contents()), n)
    {
      if n > spaceItems {
        Grow(n + 1023);
      } else if items == null {
        items := new Item[spaceItems](_ => EMPTY);
      }
      numItems := n;
    }

    /** sharkd_iograph_packet */
    method AddPacket(packet: Packet) returns (redraw: bool)
      requires Valid()
      modifies this, items
      ensures Valid() && (items == old(items) || (items != null && fresh(items)))
      ensures Contents() == Added(old(Contents()), packet, GraphIndex(packet.relTs, interval))
      ensures redraw <==> InRange(GraphIndex(packet.relTs, interval)) && packet.counted
    {
      hide GraphIndex, Counted;
      var idx := GraphIndex(packet.relTs, interval);
      if idx < 0 || idx >= MAX_ITEMS {
        return false;
      }
      if idx + 1 > numItems {
        Reserve(idx + 1);
      }
      assert Contents() == Padded(old(Contents()), idx + 1);
      items[idx] := Counted(items[idx], packet);
      redraw := packet.counted;
    }
  }

  function Table(packets: seq<Packet>, interval: uint32): seq<Item>
    requires 0 < interval
  {
    if packets == [] then []
    else
      var last := packets[|packets| - 1];
      Added(Table(packets[..|packets| - 1], interval), last, GraphIndex(last.relTs, interval))
  }

  /** What an item should hold: the counted packets of its interval and their bytes. */
  function Tally(packets: seq<Packet>, interval: uint32, idx: nat): Item
    requires 0 < interval
  {
    if packets == [] then EMPTY
    else
      var last, before := packets[|packets| - 1], Tally(packets[..|packets| - 1], interval, idx);
      if GraphIndex(last.relTs, interval) == idx then Counted(before, last) else before
  }

  /** The packets of an interval that hold the field, in order. */
  function InInterval(packets: seq<Packet>, interval: uint32, idx: nat): seq<Packet>
    requires 0 < interval
  {
    if packets == [] then []
    else
      var last := packets[|packets| - 1];
      InInterval(packets[..|packets| - 1], interval, idx) +
        if last.counted && GraphIndex(last.relTs, interval) == idx then [last] else []
  }

  function TotalLength(packets: seq<Packet>): nat {
    if packets == [] then 0 else TotalLength(packets[..|packets| - 1]) + packets[|packets| - 1].pktLen
  }

  /** An item's frames are their number, its bytes the sum of their lengths. */
  lemma {:induction false} TallyCounts(packets: seq<Packet>, interval: uint32, idx: nat)
    requires 0 < interval
    ensures var chosen := InInterval(packets, interval, idx);
            Tally(packets, interval, idx) == Item(|chosen|, TotalLength(chosen))
  {
    hide GraphIndex;
    if packets != [] {
      TallyCounts(packets[..|packets| - 1], interval, idx);
      var chosen := InInterval(packets, interval, idx);
      if chosen != [] && chosen != InInterval(packets[..|packets| - 1], interval, idx) {
        assert chosen[..|chosen| - 1] == InInterval(packets[..|packets| - 1], interval, idx);
      }
    }
  }

  function Latest(packets: seq<Packet>, interval: uint32): (n: nat)
    requires 0 < interval
    ensures n <= MAX_ITEMS
  {
    if packets == [] then 0
    else
      var idx := GraphIndex(packets[|packets| - 1].relTs, interval);
      var before := Latest(packets[..|packets| - 1], interval);
      if InRange(idx) && before <= idx then idx + 1 else before
  }

  /** One more than the latest interval a packet lies in, among those in range. */
  lemma {:induction false} LatestIs(packets: seq<Packet>, interval: uint32)
    requires 0 < interval
    ensures forall p | p in packets :: 0 <= GraphIndex(p.relTs, interval) < MAX_ITEMS ==>
              GraphIndex(p.relTs, interval) < Latest(packets, interval)
    ensures 0 < Latest(packets, interval) ==>
              exists p :: p in packets && GraphIndex(p.relTs, interval) == Latest(packets, interval) - 1
  {
    hide GraphIndex;
    if packets != [] {
      var front, last := packets[..|packets| - 1], packets[|packets| - 1];
      LatestIs(front, interval);
      assert packets == front + [last];
    }
  }

  /** After any packets, in any order, the table reaches to the latest interval and every item is its tally. */
  lemma {:induction false} TableTallies(packets: seq<Packet>, interval: uint32)
    requires 0 < interval
    ensures |Table(packets, interval)| == Latest(packets, interval)
    ensures forall i: nat | i < MAX_ITEMS ::
      Tally(packets, interval, i) == if i < |Table(packets, interval)| then Table(packets, interval)[i] else EMPTY
  {
    hide GraphIndex;
    if packets == [] {
    } else {
      TableTallies(packets[..|packets| - 1], interval);
    }
  }

  // The reply; the value of an item, by the unit the graph asks for, is computed elsewhere.

  /** An element of the reply: a value, or as a string the index of the value that follows. */
  datatype Token = Index(idx: nat) | Val(val: real)

  function Zeros(n: nat): (r: seq<real>)
    ensures |r| == n
  {
    seq(n, _ => 0.0)
  }

  function Taken(before: seq<real>, t: Token): seq<real> {
    match t
    case Val(v) => before + [v]
    case Index(i) => if |before| <= i then before + Zeros(i - |before|) else before[..i]
  }

  /** How a client reads it: values go one after the other, and an index skips zeros. */
  function Decoded(tokens: seq<Token>): seq<real> {
    if tokens == [] then []
    else Taken(Decoded(tokens[..|tokens| - 1]), tokens[|tokens| - 1])
  }

  lemma DecodedOneMore(tokens: seq<Token>, t: Token)
    ensures Decoded(tokens + [t]) == Taken(Decoded(tokens), t)
  {
    assert (tokens + [t])[..|tokens|] == tokens;
  }

  /** No zero is written, and an index only where zeros were left out, before a value. */
  predicate Sparse(tokens: seq<Token>) {
    Val(0.0) !in tokens && forall k | 0 <= k < |tokens| && tokens[k].Index? :: SkipsAt(tokens, k)
  }

  predicate SkipsAt(tokens: seq<Token>, k: nat)
    requires k < |tokens| && tokens[k].Index?
  {
    k + 1 < |tokens| && tokens[k + 1].Val? && |Decoded(tokens[..k])| < tokens[k].idx
  }

  lemma SparseWith(tokens: seq<Token>, more: seq<Token>, idx: nat, val: real)
    requires Sparse(tokens) && val != 0.0
    requires more == [Val(val)] || (more == [Index(idx), Val(val)] && |Decoded(tokens)| < idx)
    ensures Sparse(tokens + more)
  {
    hide Decoded;
    var all := tokens + more;
    forall k | 0 <= k < |all| && all[k].Index?
      ensures SkipsAt(all, k)
    {
      if k < |tokens| {
        assert SkipsAt(tokens, k);
        assert all[..k] == tokens[..k];
      } else {
        assert all[..k] == tokens;
      }
    }
  }

  /** The output loop of sharkd_session_process_iograph: nothing is lost but the zeros at the end. */
  method Output(vals: seq<real>) returns (tokens: seq<Token>)
    ensures |Decoded(tokens)| <= |vals| && vals == Decoded(tokens) + Zeros(|vals| - |Decoded(tokens)|)
    ensures Sparse(tokens)
  {
    hide Decoded, Sparse;
    tokens := [];
    var idx, nextIdx := 0, 0;
    NothingWritten();
    while idx < |vals|
      invariant 0 <= nextIdx <= idx <= |vals|
      invariant Decoded(tokens) == vals[..nextIdx] && forall k | nextIdx <= k < idx :: vals[k] == 0.0
      invariant Sparse(tokens)
    {
      var val := vals[idx];
      if val != 0.0 {
        ghost var before := tokens;
        assert vals[..idx] == vals[..nextIdx] + Zeros(idx - nextIdx);
        if nextIdx != idx {
          DecodedOneMore(tokens, Index(idx));
          tokens := tokens + [Index(idx)];
        }
        DecodedOneMore(tokens, Val(val));
        tokens := tokens + [Val(val)];
        nextIdx := idx + 1;
        SparseWith(before, tokens[|before|..], idx, val);
        assert tokens == before + tokens[|before|..];
      }
      idx := idx + 1;
    }
  }

  lemma NothingWritten()
    ensures Decoded([]) == [] && Sparse([])
  {
  }
}
