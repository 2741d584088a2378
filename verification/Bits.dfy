/** Bitwise "and" and powers of two on non-negative integers. */
module Bits {
  /** a & b on non-negative integers */
  function BitAnd(a: nat, b: nat): nat {
    if a == 0 || b == 0 then 0 else 2 * BitAnd(a / 2, b / 2) + (a % 2) * (b % 2)
  }

  function Pow2(k: nat): (p: nat)
    ensures p > 0
  {
    if k == 0 then 1 else 2 * Pow2(k - 1)
  }

  lemma ModUnique(x: nat, n: nat, q: nat, r: nat)
    requires n > 0 && x == q * n + r && r < n
    ensures x / n == q && x % n == r
  {
    var d := x / n - q;
    assert x == (x / n) * n + x % n;
    assert d * n == r - x % n;
    MulSign(d, n);
  }

  lemma MulSign(d: int, n: int)
    requires n > 0
    ensures d > 0 ==> d * n >= n
    ensures d < 0 ==> d * n <= -n
  {
  }

  lemma HalfMod(a: nat, p: nat)
    requires p > 0
    ensures a % (2 * p) == 2 * ((a / 2) % p) + a % 2
  {
    var q, r := (a / 2) / p, (a / 2) % p;
    assert a / 2 == q * p + r;
    assert a == q * (2 * p) + (2 * r + a % 2);
    ModUnique(a, 2 * p, q, 2 * r + a % 2);
  }

  lemma PowStep(n: nat)
    ensures Pow2(0) == 1 && (n > 0 ==> Pow2(n) == 2 * Pow2(n - 1))
  {
  }

  lemma AndStep(a: nat, h: nat)
    ensures BitAnd(a, 2 * h) == 2 * BitAnd(a / 2, h)
    ensures BitAnd(a, 2 * h + 1) == 2 * BitAnd(a / 2, h) + a % 2
    ensures BitAnd(a, 0) == 0
  {
    assert (2 * h) / 2 == h && (2 * h) % 2 == 0;
    assert (2 * h + 1) / 2 == h && (2 * h + 1) % 2 == 1;
  }

  /** And-ing a w-bit number with n ones followed by zeros clears the rest. */
  lemma {:induction false} AndMask(a: nat, n: nat, w: nat)
    requires n <= w && a < Pow2(w)
    ensures Pow2(w - n) <= Pow2(w)
    ensures BitAnd(a, Pow2(w) - Pow2(w - n)) == a - a % Pow2(w - n)
    decreases w
  {
    hide BitAnd;
    AndStep(a, 0);
    if n == 0 {
      ModUnique(a, Pow2(w), 0, a);
    } else if n == w {
      AndMask(a / 2, n - 1, w - 1);
      AndStep(a, Pow2(w - 1) - 1);
    } else {
      AndMask(a / 2, n, w - 1);
      AndStep(a, Pow2(w - 1) - Pow2(w - 1 - n));
      HalfMod(a, Pow2(w - 1 - n));
    }
  }

  lemma MulCancel(x: nat, y: nat, p: nat)
    requires p > 0 && x * p == y * p
    ensures x == y
  {
    assert (x - y) * p == 0;
    MulSign(x - y, p);
  }

  lemma WholeWord()
    ensures Pow2(32) == 0x1_0000_0000
  {
    assert Pow2(8) == 0x100;
    assert Pow2(16) == 0x1_0000;
    assert Pow2(24) == 0x100_0000;
  }

  lemma {:induction false} Pow2Add(a: nat, b: nat)
    ensures Pow2(a + b) == Pow2(a) * Pow2(b)
  {
    if a > 0 {
      Pow2Add(a - 1, b);
    }
  }

  /** x without its remainder modulo p */
  function RoundDown(x: nat, p: nat): (r: nat)
    requires p > 0
    ensures r <= x
  {
    x - x % p
  }

  lemma RoundDownFiner(x: nat, p: nat, r: nat)
    requires p > 0 && r > 0
    ensures RoundDown(RoundDown(x, p * r), p) == RoundDown(x, p * r)
  {
    var q := x / (p * r);
    assert RoundDown(x, p * r) == q * (p * r) == (q * r) * p;
    ModUnique((q * r) * p, p, q * r, 0);
  }

  lemma RoundDownCoarser(x: nat, p: nat, r: nat)
    requires p > 0 && r > 0
    ensures RoundDown(RoundDown(x, p), p * r) == RoundDown(x, p * r)
  {
    var n := p * r;
    var q, s := x / n, x % n;
    var t, u := s / p, s % p;
    Regroup(q, p, r, t);
    TwoRemainders(x, p, n, q, q * r + t, t * p, u);
  }

  lemma TwoRemainders(x: nat, p: nat, n: nat, q: nat, k: nat, v: nat, u: nat)
    requires p > 0 && n > 0 && u < p && v + u < n
    requires x == q * n + (v + u) && q * n + v == k * p
    ensures RoundDown(RoundDown(x, p), n) == RoundDown(x, n)
  {
    ModUnique(x, p, k, u);
    ModUnique(x, n, q, v + u);
    ModUnique(q * n + v, n, q, v);
  }

  lemma Regroup(q: nat, p: nat, r: nat, t: nat)
    ensures q * (p * r) + t * p == (q * r + t) * p
  {
    assert q * (p * r) == (q * r) * p;
  }

  /** Rounding down to 2^a and then to 2^b rounds down to the coarser of the two. */
  lemma RoundDownTwice(x: nat, a: nat, b: nat)
    ensures RoundDown(RoundDown(x, Pow2(a)), Pow2(b)) == RoundDown(x, Pow2(if a < b then b else a))
  {
    hide Pow2, RoundDown;
    if a < b {
      Pow2Add(a, b - a);
      RoundDownCoarser(x, Pow2(a), Pow2(b - a));
    } else {
      Pow2Add(b, a - b);
      RoundDownFiner(x, Pow2(b), Pow2(a - b));
    }
  }

  lemma AndLowStep(a: nat, half: nat, p: nat)
    requires 0 < half && p == 2 * half && BitAnd(a / 2, half - 1) == (a / 2) % half
    ensures BitAnd(a, p - 1) == a % p
  {
    hide BitAnd;
    AndStep(a, half - 1);
    HalfMod(a, half);
  }

  /** And-ing with n low ones keeps the remainder. */
  lemma {:induction false} AndLow(a: nat, n: nat)
    ensures BitAnd(a, Pow2(n) - 1) == a % Pow2(n)
  {
    hide BitAnd, Pow2;
    AndStep(a, 0);
    PowStep(n);
    if n > 0 {
      AndLow(a / 2, n - 1);
      AndLowStep(a, Pow2(n - 1), Pow2(n));
    }
  }
}
