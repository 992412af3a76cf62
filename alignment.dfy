/**
  The two bit-twiddling helpers both allocator revisions share:
  `is_power_of_two(n)` tests `n != 0 && (n & (n - 1)) == 0`, and
  `align_forward(p, a)` computes `(p + (a - 1)) & ~(a - 1)`.
  Both are written here with the same masks, over unbounded naturals, and
  proved equal to their arithmetic meaning: "n is 2^k" and "the least
  multiple of a that is at least p".
*/
module Alignment {

  /** 2 to the power k. */
  function Pow2(k: nat): (r: nat)
    ensures r >= 1
  {
    if k == 0 then 1 else 2 * Pow2(k - 1)
  }

  /** `a & b`, bit by bit from the least significant bit. */
  function BitAnd(a: nat, b: nat): nat
    decreases a
  {
    if a == 0 || b == 0 then 0
    else 2 * BitAnd(a / 2, b / 2) + (if a % 2 == 1 && b % 2 == 1 then 1 else 0)
  }

  /** `a & ~m`: the bits of `a` that are clear in `m`. */
  function BitClear(a: nat, m: nat): nat
    decreases a
  {
    if a == 0 then 0
    else 2 * BitClear(a / 2, m / 2) + (if a % 2 == 1 && m % 2 == 0 then 1 else 0)
  }

  /** `is_power_of_two`: non-zero, and clearing the lowest set bit leaves nothing. */
  predicate IsPowerOfTwo(n: nat)
  {
    n != 0 && BitAnd(n, n - 1) == 0
  }

  /**
    `align_forward`: add the mask, then clear the mask's bits. The result is
    the least multiple of `align` that is at least `ptr`.
  */
  function AlignForward(ptr: nat, align: nat): (r: nat)
    requires IsPowerOfTwo(align)
    ensures r % align == 0
    ensures ptr <= r < ptr + align
  {
    RoundsUp(ptr, align);
    BitClear(ptr + (align - 1), align - 1)
  }

  // ---------------------------------------------------------------------
  // Bit-level facts

  lemma {:induction false} BitAndSelf(a: nat)
    ensures BitAnd(a, a) == a
  {
    if a != 0 {
      BitAndSelf(a / 2);
    }
  }

  lemma {:induction false} BitClearNothing(a: nat)
    ensures BitClear(a, 0) == a
  {
    if a != 0 {
      BitClearNothing(a / 2);
    }
  }

  /** An odd number above one shares its low bits with its predecessor. */
  lemma OddIsNotPowerOfTwo(n: nat)
    requires n > 1 && n % 2 == 1
    ensures !IsPowerOfTwo(n)
  {
    assert (n - 1) / 2 == n / 2 && (n - 1) % 2 == 0;
    BitAndSelf(n / 2);
    assert BitAnd(n, n - 1) == 2 * (n / 2);
  }

  /** A number that passes `is_power_of_two` is 2^k; the k is returned. */
  lemma {:induction false} PowerOfTwoLog(n: nat) returns (k: nat)
    requires IsPowerOfTwo(n)
    ensures n == Pow2(k)
  {
    if n == 1 {
      k := 0;
    } else if n % 2 == 1 {
      OddIsNotPowerOfTwo(n);
      assert false;
    } else {
      var m := n / 2;
      assert (n - 1) / 2 == m - 1 && (n - 1) % 2 == 1;
      assert BitAnd(n, n - 1) == 2 * BitAnd(m, m - 1);
      var j := PowerOfTwoLog(m);
      k := j + 1;
    }
  }

  /** Every 2^k passes `is_power_of_two`. */
  lemma {:induction false} Pow2IsPowerOfTwo(k: nat)
    ensures IsPowerOfTwo(Pow2(k))
  {
    if k > 0 {
      Pow2IsPowerOfTwo(k - 1);
      var n, m := Pow2(k), Pow2(k - 1);
      assert n / 2 == m && n % 2 == 0;
      assert (n - 1) / 2 == m - 1 && (n - 1) % 2 == 1;
      assert BitAnd(n, n - 1) == 2 * BitAnd(m, m - 1);
    }
  }

  /** `is_power_of_two(n)` holds exactly for the powers of two. */
  lemma PowerOfTwoIff(n: nat)
    ensures IsPowerOfTwo(n) <==> exists k: nat :: n == Pow2(k)
  {
    if IsPowerOfTwo(n) {
      var k := PowerOfTwoLog(n);
    }
    forall k: nat | n == Pow2(k) ensures IsPowerOfTwo(n) {
      Pow2IsPowerOfTwo(k);
    }
  }

  // ---------------------------------------------------------------------
  // Arithmetic facts

  lemma MulMonotone(a: nat, b: nat, d: nat)
    requires a <= b
    ensures a * d <= b * d
  {
    assert b * d == a * d + (b - a) * d;
  }

  lemma MulStep(a: nat, b: nat, d: nat)
    requires a < b
    ensures a * d + d <= b * d
  {
    MulMonotone(a + 1, b, d);
    assert (a + 1) * d == a * d + d;
  }

  /** Quotient and remainder are unique. */
  lemma DivModUnique(x: nat, d: nat, q: nat, r: nat)
    requires d > 0 && r < d && x == q * d + r
    ensures x / d == q && x % d == r
  {
    var q0, r0 := x / d, x % d;
    assert x == q0 * d + r0;
    if q0 < q {
      MulStep(q0, q, d);
      assert false;
    } else if q < q0 {
      MulStep(q, q0, d);
      assert false;
    }
  }

  /** A multiple of `d` is its quotient times `d`. */
  lemma MultipleOf(x: nat, d: nat)
    requires d > 0 && x % d == 0
    ensures x == (x / d) * d
  {
  }

  /** Two different multiples of `d` are at least `d` apart. */
  lemma MultiplesApart(x: nat, y: nat, d: nat)
    requires d > 0 && x % d == 0 && y % d == 0 && x < y
    ensures x + d <= y
  {
    var qx, qy := x / d, y / d;
    MultipleOf(x, d);
    MultipleOf(y, d);
    if qy <= qx {
      MulMonotone(qy, qx, d);
      assert false;
    }
    MulStep(qx, qy, d);
  }

  /** Splitting off the lowest bit of a remainder modulo `2p`. */
  lemma ModDoubleStep(x: nat, p: nat)
    requires p > 0
    ensures x % (2 * p) == 2 * ((x / 2) % p) + x % 2
  {
    var h := x / 2;
    var q, r := h / p, h % p;
    assert h == q * p + r;
    assert x == 2 * h + x % 2;
    assert 2 * (q * p) == q * (2 * p);
    assert x == q * (2 * p) + (2 * r + x % 2);
    DivModUnique(x, 2 * p, q, 2 * r + x % 2);
  }

  /** Clearing the low k bits rounds down to a multiple of 2^k. */
  lemma {:induction false} BitClearLowBits(x: nat, k: nat)
    ensures BitClear(x, Pow2(k) - 1) == x - x % Pow2(k)
  {
    if k == 0 {
      BitClearNothing(x);
    } else if x != 0 {
      var m := Pow2(k) - 1;
      assert m / 2 == Pow2(k - 1) - 1 && m % 2 == 1;
      BitClearLowBits(x / 2, k - 1);
      ModDoubleStep(x, Pow2(k - 1));
    }
  }

  /** Rounding down to a multiple of `d` gives a multiple of `d`. */
  lemma RoundDownIsMultiple(y: nat, d: nat)
    requires d > 0
    ensures (y - y % d) % d == 0
  {
    var q := y / d;
    assert y == q * d + y % d;
    DivModUnique(y - y % d, d, q, 0);
  }

  lemma RoundsUp(ptr: nat, align: nat)
    requires IsPowerOfTwo(align)
    ensures var r := BitClear(ptr + (align - 1), align - 1);
      r % align == 0 && ptr <= r < ptr + align
  {
    var k := PowerOfTwoLog(align);
    var y := ptr + (align - 1);
    BitClearLowBits(y, k);
    RoundDownIsMultiple(y, align);
  }

  /** No multiple of `align` at or above `ptr` lies below `AlignForward(ptr, align)`. */
  lemma AlignForwardIsLeast(ptr: nat, align: nat, m: nat)
    requires IsPowerOfTwo(align)
    requires m % align == 0 && ptr <= m
    ensures AlignForward(ptr, align) <= m
  {
    var r := AlignForward(ptr, align);
    if m < r {
      MultiplesApart(m, r, align);
      assert false;
    }
  }

  /** The result is the one multiple of `align` in `[ptr, ptr + align)`. */
  lemma AlignForwardIs(ptr: nat, align: nat, m: nat)
    requires IsPowerOfTwo(align)
    requires m % align == 0 && ptr <= m < ptr + align
    ensures AlignForward(ptr, align) == m
  {
    var r := AlignForward(ptr, align);
    AlignForwardIsLeast(ptr, align, m);
    if r < m {
      MultiplesApart(r, m, align);
      assert false;
    }
  }

  /** An already aligned value is left in place. */
  lemma AlignForwardAligned(ptr: nat, align: nat)
    requires IsPowerOfTwo(align) && ptr % align == 0
    ensures AlignForward(ptr, align) == ptr
  {
    AlignForwardIsLeast(ptr, align, ptr);
  }

  /** In particular a fresh cursor needs no padding. */
  lemma AlignForwardZero(align: nat)
    requires IsPowerOfTwo(align)
    ensures AlignForward(0, align) == 0
  {
    AlignForwardAligned(0, align);
  }
}
