/** Word-alignment rounding of the live-byte counter (src/zmalloc.cpp,
    update_zmalloc_stat_alloc and update_zmalloc_stat_free).

    The source rounds a size n up to a multiple of the word size W = sizeof(long)
    with the bitmask test `n & (W - 1)`, and adds or subtracts the result in
    size_t arithmetic.  Here W is any power of two, the bitwise AND is defined
    on naturals, and size_t is the modulus `limit` (2^32 or 2^64). */
module Rounding {

  /** w is one of 1, 2, 4, 8, ... */
  predicate IsPowerOfTwo(w: nat)
    decreases w
  {
    w == 1 || (w >= 2 && w % 2 == 0 && IsPowerOfTwo(w / 2))
  }

  /** Bitwise AND of two naturals, least significant bit first. */
  function BitAnd(a: nat, b: nat): (r: nat)
    ensures r <= a && r <= b
    decreases a
  {
    if a == 0 || b == 0 then 0
    else 2 * BitAnd(a / 2, b / 2) + (a % 2) * (b % 2)
  }

  // ---------------------------------------------------------------------------
  // Division facts used below

  lemma {:induction false} MulAtLeast(m: int, d: int)
    requires m > 0 && d >= 1
    ensures m * d >= m
    decreases d
  {
    if d > 1 {
      MulAtLeast(m, d - 1);
      assert m * d == m * (d - 1) + m;
    }
  }

  /** Division with remainder is unique: n == m * t + x with 0 <= x < m
      fixes the quotient and the remainder. */
  lemma ModUnique(n: int, m: int, t: int, x: int)
    requires m > 0 && n == m * t + x && 0 <= x < m
    ensures n / m == t && n % m == x
  {
    var q, r := n / m, n % m;
    assert m * (t - q) == r - x;
    if t - q >= 1 {
      MulAtLeast(m, t - q);
    } else if q - t >= 1 {
      MulAtLeast(m, q - t);
    }
  }

  /** Splitting off the lowest bit: n mod 2h is twice (n/2 mod h) plus n's low bit. */
  lemma DivModHalf(n: nat, h: nat)
    requires h > 0
    ensures n % (2 * h) == 2 * ((n / 2) % h) + n % 2
  {
    var q := n / 2;
    var t, s := q / h, q % h;
    assert n == 2 * q + n % 2;
    assert q == h * t + s;
    assert n == (2 * h) * t + (2 * s + n % 2);
    ModUnique(n, 2 * h, t, 2 * s + n % 2);
  }

  /** Two multiples of w closer than w to each other are equal. */
  lemma SameMultiple(a: int, b: int, w: int)
    requires w > 0 && a % w == 0 && b % w == 0
    requires a - b < w && b - a < w
    ensures a == b
  {
    var p, q := a / w, b / w;
    assert a == w * p && b == w * q;
    assert a - b == w * (p - q);
    if p - q >= 1 {
      MulAtLeast(w, p - q);
    } else if q - p >= 1 {
      MulAtLeast(w, q - p);
    }
  }

  // ---------------------------------------------------------------------------
  // The bitmask trick

  /** Masking with an odd number 2h - 1 keeps n's low bit and masks the rest with h - 1. */
  lemma BitAndOddMask(n: nat, h: nat)
    requires n != 0 && h >= 1
    ensures BitAnd(n, 2 * h - 1) == 2 * BitAnd(n / 2, h - 1) + n % 2
  {
    var mask := 2 * h - 1;
    assert mask / 2 == h - 1 && mask % 2 == 1;
    assert (n % 2) * (mask % 2) == n % 2;
  }

  /** For a power of two w, masking with w - 1 keeps exactly the remainder mod w
      (the test `n & (sizeof(long) - 1)` of src/zmalloc.cpp). */
  lemma {:induction false} LowBits(n: nat, w: nat)
    requires IsPowerOfTwo(w)
    ensures BitAnd(n, w - 1) == n % w
    decreases w
  {
    if w != 1 {
      var h := w / 2;
      assert w == 2 * h;
      LowBits(n / 2, h);
      if n != 0 {
        calc {
          BitAnd(n, w - 1);
          { assert w - 1 == 2 * h - 1; }
          BitAnd(n, 2 * h - 1);
          { BitAndOddMask(n, h); }
          2 * BitAnd(n / 2, h - 1) + n % 2;
          2 * ((n / 2) % h) + n % 2;
          { DivModHalf(n, h); }
          n % (2 * h);
        }
      }
    }
  }

  // ---------------------------------------------------------------------------
  // The specification: the least multiple of w that is at least n

  /** The word ceiling of n: the multiple of w in the window [n, n + w). */
  function Ceil(n: nat, w: nat): (m: nat)
    requires w > 0
    ensures m % w == 0 && n <= m < n + w
  {
    var k := n + w - 1;
    ModUnique(k - k % w, w, k / w, 0);
    k - k % w
  }

  /** No multiple of w at or above n lies below Ceil(n, w). */
  lemma CeilLeast(n: nat, w: nat, k: nat)
    requires w > 0 && k % w == 0 && n <= k
    ensures Ceil(n, w) <= k
  {
    var m := Ceil(n, w);
    if k < m {
      SameMultiple(m, k, w);
    }
  }

  /** A size that is already a multiple of w is its own ceiling. */
  lemma CeilOfMultiple(n: nat, w: nat)
    requires w > 0 && n % w == 0
    ensures Ceil(n, w) == n
  {
    CeilLeast(n, w, n);
  }

  /** Otherwise the ceiling is reached by adding w - (n mod w). */
  lemma CeilOfNonMultiple(n: nat, w: nat)
    requires w > 0 && n % w != 0
    ensures Ceil(n, w) == n + (w - n % w)
  {
    var c := n + (w - n % w);
    ModUnique(c, w, n / w + 1, 0);
    SameMultiple(Ceil(n, w), c, w);
  }

  /** Rounding is idempotent: the ceiling of a ceiling is itself. */
  lemma CeilIdempotent(n: nat, w: nat)
    requires w > 0
    ensures Ceil(Ceil(n, w), w) == Ceil(n, w)
  {
    CeilOfMultiple(Ceil(n, w), w);
  }

  /** The ceiling never passes a multiple of w that bounds n, such as the size_t modulus. */
  lemma CeilWithin(n: nat, w: nat, limit: nat)
    requires w > 0 && 0 < limit && limit % w == 0 && n <= limit
    ensures Ceil(n, w) <= limit
    ensures Ceil(n, w) % limit % w == 0
  {
    CeilLeast(n, w, limit);
    if Ceil(n, w) == limit {
      assert Ceil(n, w) % limit == 0;
    } else {
      ModUnique(Ceil(n, w), limit, 0, Ceil(n, w));
    }
  }

  /** The ceiling reduced modulo size_t, by cases on n mod w. */
  lemma CeilBelowLimit(n: nat, w: nat, limit: nat)
    requires w > 0 && 0 < limit && limit % w == 0 && n < limit
    ensures Ceil(n, w) % limit % w == 0
    ensures n % w == 0 ==> Ceil(n, w) % limit == n
    ensures n % w != 0 ==> Ceil(n, w) == n + (w - n % w)
    ensures n + w <= limit ==> Ceil(n, w) % limit == Ceil(n, w)
  {
    CeilWithin(n, w, limit);
    if n % w == 0 {
      CeilOfMultiple(n, w);
      ModUnique(n, limit, 0, n);
    } else {
      CeilOfNonMultiple(n, w);
    }
    if Ceil(n, w) < limit {
      ModUnique(Ceil(n, w), limit, 0, Ceil(n, w));
    }
  }

  // ---------------------------------------------------------------------------
  // The two rounding paths as written

  /** The amount update_zmalloc_stat_alloc adds for n: `_n = n`, and when
      `n & (W - 1)` is non-zero, `_n += W - (n & (W - 1))` in size_t arithmetic.
      It is the word ceiling of n, reduced modulo size_t (so 0 only when the
      ceiling is exactly the modulus). */
  function AllocAmount(n: nat, w: nat, limit: nat): (r: nat)
    requires IsPowerOfTwo(w) && 0 < limit && limit % w == 0 && n < limit
    ensures r == Ceil(n, w) % limit
    ensures r < limit && r % w == 0
    ensures n % w == 0 ==> r == n
    ensures n + w <= limit ==> n <= r < n + w
  {
    LowBits(n, w);
    CeilBelowLimit(n, w, limit);
    var low := BitAnd(n, w - 1);
    if low != 0 then (n + (w - low)) % limit else n
  }

  /** The amount update_zmalloc_stat_free subtracts for n.  The second mask is
      taken of `_n`, which still equals n at that point, so the free path
      always subtracts exactly what the allocation path added. */
  function FreeAmount(n: nat, w: nat, limit: nat): (r: nat)
    requires IsPowerOfTwo(w) && 0 < limit && limit % w == 0 && n < limit
    ensures r == AllocAmount(n, w, limit)
  {
    var cur := n;
    if BitAnd(n, w - 1) != 0 then (cur + (w - BitAnd(cur, w - 1))) % limit else cur
  }

  /** Rounding an accounted amount again changes nothing. */
  lemma AllocAmountIdempotent(n: nat, w: nat, limit: nat)
    requires IsPowerOfTwo(w) && 0 < limit && limit % w == 0 && n < limit
    ensures AllocAmount(AllocAmount(n, w, limit), w, limit) == AllocAmount(n, w, limit)
  {
  }

  // ---------------------------------------------------------------------------
  // size_t counter arithmetic

  /** Adding to a wrapped value wraps like adding to the unwrapped one. */
  lemma AddWrapped(s: int, a: int, m: int)
    requires m > 0
    ensures (s % m + a) % m == (s + a) % m
  {
    var x := s % m + a;
    assert s + a == m * (s / m) + x;
    var t := x / m;
    ModUnique(s + a, m, s / m + t, x % m);
  }

  /** Subtracting from a wrapped value wraps like subtracting from the unwrapped one. */
  lemma SubWrapped(s: int, a: int, m: int)
    requires m > 0
    ensures (s % m - a) % m == (s - a) % m
  {
    AddWrapped(s, -a, m);
  }

  /** `used += a; used -= a` on a size_t counter restores it, whatever wrapped. */
  lemma AddThenSubtract(u: int, a: int, m: int)
    requires 0 <= u < m
    ensures ((u + a) % m - a) % m == u
  {
    SubWrapped(u + a, a, m);
    ModUnique(u, m, 0, u);
  }
}
