/**
 The result of a filter as sharkd keeps it (sharkd_filter in sharkd.c): one bit for each
 frame, gathered in a byte that is stored before every eighth frame and at the end.
 */
module FilterBits {
  import opened Basics
  import opened Bits
  import opened Intervals

  /** The first frame that cannot be read back, or the number after the last one. */
  predicate StopsAt(readable: nat -> bool, count: nat, stop: nat) {
    1 <= stop <= count + 1 && (stop <= count ==> !readable(stop)) && forall f | 1 <= f < stop :: readable(f)
  }

  predicate HasBit(b: nat, k: nat) {
    b / Pow2(k) % 2 == 1
  }

  /** The byte holds the verdicts of the n frames before framenum, from its lowest bit on; number 0 is no frame. */
  predicate Gathered(passed: byte, verdict: nat -> bool, framenum: nat, n: nat) {
    n <= 8 && n <= framenum && passed < Pow2(n) &&
    forall k: nat | k < n :: HasBit(passed, k) <==> 0 < framenum - n + k && verdict(framenum - n + k)
  }

  /** The frames from 1 to before k have their bits. */
  predicate Stored(bits: seq<byte>, verdict: nat -> bool, k: nat) {
    forall f | 1 <= f < k :: f / 8 < |bits| && (Passes(Some(bits), f) <==> verdict(f))
  }

  lemma BitBelow(b: nat, n: nat, k: nat)
    requires k < n
    ensures HasBit(b + Pow2(n), k) <==> HasBit(b, k)
  {
    hide Pow2;
    PowStep(n - k);
    Pow2Add(n - k, k);
    AddEvenMultiple(b, Pow2(k), Pow2(n - k), Pow2(n - k - 1), Pow2(n));
  }

  lemma AddEvenMultiple(b: nat, p: nat, m: nat, half: nat, whole: nat)
    requires 0 < p && whole == m * p && m == 2 * half
    ensures (b + whole) / p % 2 == b / p % 2
  {
    var x := b / p;
    assert (b + whole) / p == x + m by { AddMultiple(b, p, m); }
    AddEven(x, half);
  }

  lemma AddEven(x: nat, half: nat)
    ensures (x + 2 * half) % 2 == x % 2
  {
  }

  lemma AddMultiple(b: nat, p: nat, m: nat)
    requires 0 < p
    ensures (b + m * p) / p == b / p + m
  {
    Distribute(b / p, m, p);
    ModUnique(b + m * p, p, b / p + m, b % p);
  }

  lemma Distribute(q: nat, m: nat, p: nat)
    ensures (q + m) * p == q * p + m * p
  {
  }

  lemma BitAt(b: nat, n: nat)
    requires b < Pow2(n)
    ensures !HasBit(b, n) && HasBit(b + Pow2(n), n) && b + Pow2(n) < Pow2(n + 1)
  {
    ModUnique(b, Pow2(n), 0, b);
    ModUnique(b + Pow2(n), Pow2(n), 1, b);
  }

  lemma BitAdded(passed: byte, verdict: nat -> bool, framenum: nat, n: nat)
    requires Gathered(passed, verdict, framenum, n) && n < 8 && 0 < framenum
    ensures passed + Pow2(n) < 256
    ensures Gathered(if verdict(framenum) then passed + Pow2(n) else passed, verdict, framenum + 1, n + 1)
  {
    hide Pow2, HasBit;
    PowersOfByte(n + 1);
    PowStep(n + 1);
    BitAt(passed, n);
    var next := if verdict(framenum) then passed + Pow2(n) else passed;
    forall k: nat | k < n + 1
      ensures HasBit(next, k) <==> 0 < framenum - n + k && verdict(framenum - n + k)
    {
      if k < n {
        BitBelow(passed, n, k);
        assert HasBit(passed, k) <==> 0 < framenum - n + k && verdict(framenum - n + k);
      }
    }
  }

  lemma PowersOfByte(n: nat)
    requires n <= 8
    ensures Pow2(n) <= 256
  {
    Pow2Add(n, 8 - n);
    MulSign(Pow2(8 - n), Pow2(n));
    assert Pow2(8) == 0x100;
  }

  /** The frames of the byte being gathered are the n before framenum. */
  predicate InByte(framenum: nat, n: nat) {
    0 < framenum && n <= framenum && n == (framenum - 1) % 8 + 1
  }

  lemma Aligned(framenum: nat, n: nat)
    requires InByte(framenum, n)
    ensures 0 < n <= 8 && (framenum - n) % 8 == 0
    ensures framenum % 8 == 0 <==> n == 8
    ensures n == 8 ==> framenum / 8 - 1 == (framenum - 1) / 8 == (framenum - n) / 8
    ensures n < 8 ==> framenum % 8 == n && framenum / 8 == (framenum - n) / 8
  {
  }

  lemma NextInByte(framenum: nat, n: nat)
    requires 0 < n <= 8 && n <= framenum && (framenum - n) % 8 == 0
    ensures InByte(framenum, n)
  {
  }

  lemma ByteStored(bits: seq<byte>, passed: byte, verdict: nat -> bool, framenum: nat, n: nat)
    requires Gathered(passed, verdict, framenum, n) && (framenum - n) % 8 == 0 && (framenum - n) / 8 < |bits|
    requires Stored(bits, verdict, framenum - n)
    ensures Stored(bits[(framenum - n) / 8 := passed], verdict, framenum)
  {
    hide Pow2;
    var base, now := framenum - n, bits[(framenum - n) / 8 := passed];
    forall f | 1 <= f < framenum
      ensures f / 8 < |now| && (Passes(Some(now), f) <==> verdict(f))
    {
      if f < base {
        assert Passes(Some(bits), f) <==> verdict(f);
      } else {
        assert f / 8 == base / 8 && f % 8 == f - base;
        assert HasBit(passed, f - base) <==> 0 < framenum - n + (f - base) && verdict(framenum - n + (f - base));
      }
    }
  }

  /** Storing a byte over the one before loses the bits in it and no others. */
  lemma ByteLost(bits: seq<byte>, verdict: nat -> bool, stop: nat)
    requires Stored(bits, verdict, stop) && 0 < stop && stop % 8 == 0 && stop / 8 - 1 < |bits|
    ensures forall f | 1 <= f < stop ::
      f / 8 < |bits| && (Passes(Some(bits[stop / 8 - 1 := 0]), f) <==> verdict(f) && f + 8 < stop)
  {
    var now := bits[stop / 8 - 1 := 0];
    forall f | 1 <= f < stop
      ensures f / 8 < |bits| && (Passes(Some(now), f) <==> verdict(f) && f + 8 < stop)
    {
      assert Passes(Some(bits), f) <==> verdict(f);
      if f / 8 == stop / 8 - 1 {
        ZeroHasNoBits(f % 8);
      }
    }
  }

  lemma ZeroHasNoBits(k: nat)
    ensures 0 / Pow2(k) % 2 == 0
  {
    ModUnique(0, Pow2(k), 0, 0);
  }

  /**
   Reading stops at the first frame that cannot be read. Each frame before it has the bit of its
   verdict; except that the last eight have none if its own number is a multiple of eight,
   since their byte is stored twice.
   */
  method FilterFrames(count: nat, verdict: nat -> bool, readable: nat -> bool)
    returns (bits: array<byte>, framenum: nat, ghost stop: nat)
    ensures fresh(bits) && bits.Length == 2 + count / 8 && StopsAt(readable, count, stop)
    ensures framenum == if stop % 8 == 0 then stop - 1 else stop
    ensures forall f | 1 <= f < stop ::
      f / 8 < bits.Length &&
      (Passes(Some(bits[..]), f) <==> verdict(f) && !(stop <= count && stop % 8 == 0 && stop <= f + 8))
  {
    hide Pow2, Passes, Gathered, Stored, InByte;
    bits := new byte[2 + count / 8];
    var passed: byte := 0;
    framenum := 1;
    ghost var n, broken := 1, false;
    NothingYet(bits[..], verdict);
    NextInByte(1, 1);
    while framenum <= count
      invariant 1 <= framenum <= count + 1 && forall f | 1 <= f < framenum :: readable(f)
      invariant InByte(framenum, n) && Gathered(passed, verdict, framenum, n)
      invariant n <= framenum && Stored(bits[..], verdict, framenum - n)
    {
      Aligned(framenum, n);
      if framenum % 8 == 0 {
        StoreByte(bits, framenum / 8 - 1, passed, verdict, framenum, n);
        passed, n := 0, 0;
        NothingGathered(verdict, framenum);
      }
      if !readable(framenum) {
        broken := true;
        break;
      }
      BitAdded(passed, verdict, framenum, n);
      if verdict(framenum) {
        passed := passed + Pow2(framenum % 8);
      }
      framenum, n := framenum + 1, n + 1;
      NextInByte(framenum, n);
    }
    stop := framenum;
    if !broken {
      Aligned(framenum, n);
    }
    if framenum % 8 == 0 {
      framenum := framenum - 1;
    }
    ghost var was, now := bits[..], bits[..];
    if broken && stop % 8 == 0 {
      now := was[stop / 8 - 1 := 0];
      ByteLost(was, verdict, stop);
    } else {
      now := was[framenum / 8 := passed];
      ByteStored(was, passed, verdict, stop, n);
      StoredMeans(now, verdict, stop);
    }
    bits[framenum / 8] := passed;
    assert bits[..] == now;
  }

  method StoreByte(bits: array<byte>, i: nat, passed: byte, ghost verdict: nat -> bool, ghost framenum: nat, ghost n: nat)
    requires Gathered(passed, verdict, framenum, n) && (framenum - n) % 8 == 0 && i == (framenum - n) / 8 < bits.Length
    requires Stored(bits[..], verdict, framenum - n)
    modifies bits
    ensures Stored(bits[..], verdict, framenum)
  {
    hide Stored, Gathered;
    ByteStored(bits[..], passed, verdict, framenum, n);
    ghost var now := bits[..][i := passed];
    bits[i] := passed;
    assert bits[..] == now;
  }

  lemma StoredMeans(bits: seq<byte>, verdict: nat -> bool, k: nat)
    ensures Stored(bits, verdict, k) ==> forall f | 1 <= f < k :: f / 8 < |bits| && (Passes(Some(bits), f) <==> verdict(f))
  {
  }

  lemma NothingGathered(verdict: nat -> bool, framenum: nat)
    ensures Gathered(0, verdict, framenum, 0)
  {
  }

  lemma NothingYet(bits: seq<byte>, verdict: nat -> bool)
    ensures Gathered(0, verdict, 1, 1) && Stored(bits, verdict, 0)
  {
    ZeroHasNoBits(0);
  }
}
