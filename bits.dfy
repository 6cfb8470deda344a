/**
 * Integer and bit-level facts that the transform kernels rest on: powers of
 * two, C's `&` on non-negative integers, and the bit-reversal of an index.
 * Everything is stated over unbounded naturals; the source's `long` and
 * `unsigned int` never overflow for the lengths it accepts.
 */
module Bits {

  /** 2 to the power `k`. */
  function Pow2(k: nat): (p: nat)
    ensures p >= 1
  {
    if k == 0 then 1 else 2 * Pow2(k - 1)
  }

  /** `n` is one of 1, 2, 4, 8, ... */
  predicate IsPowerOfTwo(n: nat)
  {
    if n <= 1 then n == 1 else n % 2 == 0 && IsPowerOfTwo(n / 2)
  }

  /** The exponent of a power of two. */
  function Log2(n: nat): (k: nat)
    requires IsPowerOfTwo(n)
    ensures Pow2(k) == n
  {
    if n == 1 then 0 else 1 + Log2(n / 2)
  }

  lemma {:induction false} Pow2IsPowerOfTwo(k: nat)
    ensures IsPowerOfTwo(Pow2(k)) && Log2(Pow2(k)) == k
  {
    if k > 0 {
      var p := Pow2(k - 1);
      Pow2IsPowerOfTwo(k - 1);
      assert Pow2(k) == 2 * p;
      assert (2 * p) % 2 == 0 && (2 * p) / 2 == p;
      assert IsPowerOfTwo(2 * p);
      assert Log2(2 * p) == 1 + Log2(p);
    }
  }

  lemma {:induction false} Pow2Monotonic(a: nat, b: nat)
    requires a < b
    ensures 2 * Pow2(a) <= Pow2(b)
  {
    if a + 1 < b {
      Pow2Monotonic(a, b - 1);
    }
  }

  lemma {:induction false} Pow2Add(a: nat, b: nat)
    ensures Pow2(a + b) == Pow2(a) * Pow2(b)
  {
    if b > 0 {
      Pow2Add(a, b - 1);
      assert Pow2(a + b) == 2 * (Pow2(a) * Pow2(b - 1));
    }
  }

  // ---------------------------------------------------------------------
  // Division facts for divisors that are not constants.

  lemma MulAtLeast(a: int, d: int)
    requires a >= 1 && d > 0
    ensures a * d >= d
  {
    assert a * d == (a - 1) * d + d;
    assert (a - 1) * d >= 0;
  }

  lemma MulMonotonic(a: int, b: int, d: int)
    requires a <= b && d >= 0
    ensures a * d <= b * d
  {
    assert b * d - a * d == (b - a) * d;
  }

  /** Dividing a natural number by a positive one leaves a natural quotient. */
  lemma QuotientOfNat(x: int, d: int)
    requires x >= 0 && d > 0
    ensures x / d >= 0 && x == (x / d) * d + x % d
  {
    if x / d < 0 {
      MulMonotonic(x / d, -1, d);
      assert false;
    }
  }

  /** Quotient and remainder are determined by `x == q * d + r` with `0 <= r < d`. */
  lemma DivModUnique(x: int, d: int, q: int, r: int)
    requires d > 0 && x == q * d + r && 0 <= r < d
    ensures x / d == q && x % d == r
  {
    var q', r' := x / d, x % d;
    assert q' * d + r' == q * d + r;
    assert (q' - q) * d == r - r';
    if q' > q {
      MulAtLeast(q' - q, d);
    } else if q' < q {
      MulAtLeast(q - q', d);
    }
  }

  /** A smaller power of two divides a larger one. */
  lemma PowerOfTwoDivides(n: nat, d: nat)
    requires IsPowerOfTwo(n) && IsPowerOfTwo(d) && d <= n
    ensures n % d == 0
  {
    var a, b := Log2(n), Log2(d);
    if b > a {
      Pow2Monotonic(a, b);
      assert false;
    }
    var e: nat := a - b;
    Pow2Add(e, b);
    assert Pow2(e + b) == n;
    DivModUnique(n, d, Pow2(e), 0);
  }

  /** Of two powers of two, the smaller is at most half the larger. */
  lemma PowerOfTwoBelow(a: nat, b: nat)
    requires IsPowerOfTwo(a) && IsPowerOfTwo(b) && a < b
    ensures 2 * a <= b && IsPowerOfTwo(2 * a)
  {
    var x, y := Log2(a), Log2(b);
    if x >= y {
      if x > y {
        Pow2Monotonic(y, x);
      }
      assert false;
    }
    Pow2Monotonic(x, y);
  }

  // ---------------------------------------------------------------------
  // C's `&` on non-negative operands, and the power-of-two test built on it.

  /** Bitwise AND of two non-negative integers. */
  function And(a: nat, b: nat): (r: nat)
    ensures r <= a && r <= b
  {
    if a == 0 || b == 0 then 0
    else 2 * And(a / 2, b / 2) + (if a % 2 == 1 && b % 2 == 1 then 1 else 0)
  }

  lemma {:induction false} AndSelf(a: nat)
    ensures And(a, a) == a
  {
    if a > 0 {
      AndSelf(a / 2);
    }
  }

  /**
   * The test `(n & (n - 1)) == 0` holds for a positive `n` exactly when `n`
   * is a power of two.
   */
  lemma {:induction false} PowerOfTwoTest(n: nat)
    requires n >= 1
    ensures And(n, n - 1) == 0 <==> IsPowerOfTwo(n)
  {
    if n == 1 {
    } else if n % 2 == 0 {
      PowerOfTwoTest(n / 2);
    } else {
      AndSelf(n / 2);
    }
  }

  /** Bit `e` of `t`. */
  predicate Bit(t: nat, e: nat)
  {
    if e == 0 then t % 2 == 1 else Bit(t / 2, e - 1)
  }

  /** AND with a one-bit mask keeps exactly that bit. */
  lemma {:induction false} AndPow2(t: nat, e: nat)
    ensures And(t, Pow2(e)) == if Bit(t, e) then Pow2(e) else 0
  {
    if e > 0 {
      AndPow2(t / 2, e - 1);
      assert Pow2(e) / 2 == Pow2(e - 1) && Pow2(e) % 2 == 0;
    }
  }

  /** Bit `e` of `l + 2^e` (or of `l`) is the added bit, when `l < 2^e`. */
  lemma {:induction false} BitOfSum(l: nat, top: bool, e: nat)
    requires l < Pow2(e)
    ensures Bit(l + (if top then Pow2(e) else 0), e) == top
  {
    if e > 0 {
      BitOfSum(l / 2, top, e - 1);
      assert (l + (if top then Pow2(e) else 0)) / 2 == l / 2 + (if top then Pow2(e - 1) else 0);
    }
  }

  // ---------------------------------------------------------------------
  // Bit reversal.

  /** The lowest `k` bits of `x`, in reverse order: bit `b` moves to bit `k - 1 - b`. */
  function BitRev(x: nat, k: nat): (r: nat)
    ensures r < Pow2(k)
  {
    if k == 0 then 0 else (if x % 2 == 1 then Pow2(k - 1) else 0) + BitRev(x / 2, k - 1)
  }

  /** Reversing `k` bits moves the top bit of `x` to the bottom. */
  lemma {:induction false} BitRevTop(l: nat, top: bool, k: nat)
    requires k >= 1 && l < Pow2(k - 1)
    ensures BitRev(l + (if top then Pow2(k - 1) else 0), k) == 2 * BitRev(l, k - 1) + (if top then 1 else 0)
  {
    var x := l + (if top then Pow2(k - 1) else 0);
    if k > 1 {
      assert x % 2 == l % 2 && x / 2 == l / 2 + (if top then Pow2(k - 2) else 0);
      BitRevTop(l / 2, top, k - 1);
    }
  }

  /** Bit reversal of `k` bits is an involution on `0 .. 2^k - 1`. */
  lemma {:induction false} BitRevInvolution(x: nat, k: nat)
    requires x < Pow2(k)
    ensures BitRev(BitRev(x, k), k) == x
  {
    if k > 0 {
      var low := BitRev(x / 2, k - 1);
      assert BitRev(x, k) == low + (if x % 2 == 1 then Pow2(k - 1) else 0);
      BitRevInvolution(x / 2, k - 1);
      BitRevTop(low, x % 2 == 1, k);
      assert x == 2 * (x / 2) + (if x % 2 == 1 then 1 else 0);
    }
  }

  /** Bit reversal is injective on `0 .. 2^k - 1`. */
  lemma BitRevInjective(x: nat, y: nat, k: nat)
    requires x < Pow2(k) && y < Pow2(k) && BitRev(x, k) == BitRev(y, k)
    ensures x == y
  {
    BitRevInvolution(x, k);
    BitRevInvolution(y, k);
  }

  /** `c` trailing zero bits become `c` leading zero bits that the reversal drops. */
  lemma {:induction false} BitRevShift(y: nat, c: nat, k: nat)
    requires c <= k
    ensures BitRev(y * Pow2(c), k) == BitRev(y, k - c)
  {
    if c > 0 {
      var z := y * Pow2(c - 1);
      assert y * Pow2(c) == 2 * z;
      assert (2 * z) % 2 == 0 && (2 * z) / 2 == z;
      assert BitRev(2 * z, k) == BitRev(z, k - 1);
      BitRevShift(y, c - 1, k - 1);
    }
  }

  /** The top bit of the reversal of `q` is the lowest bit of `q`. */
  lemma TopBitOfBitRev(q: nat, j: nat)
    requires j >= 1
    ensures And(BitRev(q, j), Pow2(j - 1)) != 0 <==> q % 2 == 1
  {
    AndPow2(BitRev(q, j), j - 1);
    BitOfSum(BitRev(q / 2, j - 1), q % 2 == 1, j - 1);
  }

  /** Counting `2^k` positions wraps the reversed counter back to 0. */
  lemma BitRevWraps(k: nat)
    ensures BitRev(Pow2(k), k) == 0
  {
    BitRevShift(1, k, k);
    assert 1 * Pow2(k) == Pow2(k) && BitRev(1, 0) == 0;
  }
}
