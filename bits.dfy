/**
 * Index arithmetic of the ring: powers of two, the bit mask that replaces
 * `% size`, and `usize` wrapping where the source relies on it.
 */
module Bits {

  /** 2^64: `usize` arithmetic wraps around modulo this value. */
  const USIZE_MODULUS: nat := 0x1_0000_0000_0000_0000
  /** 2^63: the largest power of two a `usize` can hold. */
  const MAX_POWER_OF_TWO: nat := 0x8000_0000_0000_0000

  /** `usize::is_power_of_two`: exactly one bit is set (so 0 is not a power of two). */
  predicate IsPowerOfTwo(n: nat)
  {
    n == 1 || (n >= 2 && n % 2 == 0 && IsPowerOfTwo(n / 2))
  }

  /** Bitwise `&` of two naturals, taken bit by bit from the least significant bit. */
  function BitAnd(a: nat, b: nat): (r: nat)
    ensures r <= a && r <= b
  {
    if a == 0 || b == 0 then 0
    else 2 * BitAnd(a / 2, b / 2) + (if a % 2 == 1 && b % 2 == 1 then 1 else 0)
  }

  /** `usize::wrapping_sub` */
  function WrappingSub(a: nat, b: nat): (r: nat)
    requires a < USIZE_MODULUS && b < USIZE_MODULUS
    ensures r < USIZE_MODULUS
    ensures a >= b ==> r == a - b
    ensures a < b ==> r == USIZE_MODULUS + a - b
  {
    ModUnique(a - b, USIZE_MODULUS, if a >= b then 0 else -1, if a >= b then a - b else USIZE_MODULUS + a - b);
    (a - b) % USIZE_MODULUS
  }

  /** `usize::wrapping_add` */
  function WrappingAdd(a: nat, b: nat): (r: nat)
    requires a < USIZE_MODULUS && b < USIZE_MODULUS
    ensures r < USIZE_MODULUS
    ensures a + b < USIZE_MODULUS ==> r == a + b
    ensures a + b >= USIZE_MODULUS ==> r == a + b - USIZE_MODULUS
  {
    ModUnique(a + b, USIZE_MODULUS, if a + b < USIZE_MODULUS then 0 else 1,
              if a + b < USIZE_MODULUS then a + b else a + b - USIZE_MODULUS);
    (a + b) % USIZE_MODULUS
  }

  /**
   * Number of elements between `tail` (first readable) and `head` (next
   * writable) in a ring of `size` slots: `(head - tail) mod size`.
   */
  function Count(tail: nat, head: nat, size: nat): (r: nat)
    requires IsPowerOfTwo(size) && size <= MAX_POWER_OF_TWO
    requires tail < size && head < size
    ensures r == (head - tail) % size
    ensures r < size
    ensures r == if tail <= head then head - tail else size - tail + head
  {
    var d := WrappingSub(head, tail);
    MaskIsMod(d, size);
    WordModIsMod(head - tail, size);
    ModUnique(head - tail, size, if tail <= head then 0 else -1,
              if tail <= head then head - tail else size - tail + head);
    BitAnd(d, size - 1)
  }

  /** `index` reduced into `[0, size)` by masking, for a power-of-two `size`. */
  function WrapIndex(index: nat, size: nat): (r: nat)
    requires IsPowerOfTwo(size)
    ensures r == index % size
    ensures r < size
  {
    MaskIsMod(index, size);
    BitAnd(index, size - 1)
  }

  /** `usize::next_power_of_two`: the smallest power of two that is at least `x`. */
  function StdNextPowerOfTwo(x: nat): (r: nat)
    ensures IsPowerOfTwo(r)
    ensures r >= x
    ensures r == 1 || r / 2 < x
  {
    if x <= 1 then 1 else 2 * StdNextPowerOfTwo((x + 1) / 2)
  }

  /**
   * The crate's `next_power_of_two`: the smallest power of two strictly
   * greater than `x` (a power of two is bumped by one first).
   */
  function NextPowerOfTwo(x: nat): (r: nat)
    ensures IsPowerOfTwo(r)
    ensures r > x
    ensures r / 2 <= x
    ensures x >= 1 ==> r <= 2 * x
  {
    StdNextPowerOfTwo(if IsPowerOfTwo(x) then x + 1 else x)
  }

  /** Every power of two greater than `x` is at least `NextPowerOfTwo(x)`. */
  lemma NextPowerOfTwoIsLeast(x: nat, p: nat)
    requires IsPowerOfTwo(p) && p > x
    ensures p >= NextPowerOfTwo(x)
  {
    var r := NextPowerOfTwo(x);
    if p < r {
      PowerOfTwoOrder(p, r);
    }
  }

  /** `NextPowerOfTwo(x)` is the one power of two `p` with `p / 2 <= x < p`. */
  lemma NextPowerOfTwoIsUnique(x: nat, p: nat)
    requires IsPowerOfTwo(p) && p / 2 <= x < p
    ensures NextPowerOfTwo(x) == p
  {
    var r := NextPowerOfTwo(x);
    if r < p {
      PowerOfTwoOrder(r, p);
    } else if p < r {
      PowerOfTwoOrder(p, r);
    }
  }

  /** Between two distinct powers of two there is at least a factor of two. */
  lemma {:induction false} PowerOfTwoOrder(p: nat, q: nat)
    requires IsPowerOfTwo(p) && IsPowerOfTwo(q) && p < q
    ensures 2 * p <= q
  {
    if p != 1 {
      PowerOfTwoOrder(p / 2, q / 2);
    }
  }

  function Pow2(k: nat): nat
  {
    if k == 0 then 1 else 2 * Pow2(k - 1)
  }

  lemma {:induction false} Pow2IsPowerOfTwo(k: nat)
    ensures IsPowerOfTwo(Pow2(k))
  {
    if k > 0 {
      Pow2IsPowerOfTwo(k - 1);
    }
  }

  /** The powers of two are exactly the values `Pow2(k)`. */
  lemma {:induction false} PowerOfTwoIsPow2(n: nat)
    ensures IsPowerOfTwo(n) <==> exists k: nat :: Pow2(k) == n
    ensures IsPowerOfTwo(n) ==> n >= 1
  {
    if IsPowerOfTwo(n) {
      if n == 1 {
        assert Pow2(0) == n;
      } else {
        PowerOfTwoIsPow2(n / 2);
        var k: nat :| Pow2(k) == n / 2;
        assert Pow2(k + 1) == n;
      }
    }
    if k: nat :| Pow2(k) == n {
      Pow2IsPowerOfTwo(k);
    }
  }

  lemma {:induction false} Pow2Add(a: nat, b: nat)
    ensures Pow2(a + b) == Pow2(a) * Pow2(b)
  {
    if a > 0 {
      Pow2Add(a - 1, b);
    }
  }

  lemma UsizeModulusIsPowerOfTwo()
    ensures IsPowerOfTwo(USIZE_MODULUS)
  {
    assert Pow2(2) == 4;
    Pow2Add(2, 2);
    Pow2Add(4, 4);
    assert Pow2(8) == 0x100;
    Pow2Add(8, 8);
    assert Pow2(16) == 0x1_0000;
    Pow2Add(16, 16);
    assert Pow2(32) == 0x1_0000_0000;
    Pow2Add(32, 32);
    assert Pow2(64) == USIZE_MODULUS;
    Pow2IsPowerOfTwo(64);
  }

  /**
   * Associativity of `*`, in a lemma of its own so that the nonlinear step
   * is proved apart from the context where it is used.
   */
  lemma MulAssoc(a: int, b: int, c: int)
    ensures (a * b) * c == a * (b * c)
  {
  }

  /** A smaller power of two divides a larger one. */
  lemma {:induction false} PowerOfTwoDivides(p: nat, q: nat) returns (m: nat)
    requires IsPowerOfTwo(p) && IsPowerOfTwo(q) && p <= q
    ensures q == p * m
  {
    if p == 1 {
      m := q;
    } else {
      m := PowerOfTwoDivides(p / 2, q / 2);
    }
  }

  /** Masking with `size - 1` keeps the low bits: it is `% size` for a power-of-two `size`. */
  lemma {:induction false} MaskIsMod(x: nat, size: nat)
    requires IsPowerOfTwo(size)
    ensures BitAnd(x, size - 1) == x % size
    decreases size
  {
    if size == 1 {
    } else if x == 0 {
    } else {
      var h := size / 2;
      assert (size - 1) / 2 == h - 1 && (size - 1) % 2 == 1;
      MaskIsMod(x / 2, h);
      HalveMod(x, h);
    }
  }

  /** The remainder modulo `2h` is rebuilt from the remainder of `x / 2` modulo `h` and the low bit. */
  lemma HalveMod(x: nat, h: nat)
    requires h > 0
    ensures x % (2 * h) == 2 * ((x / 2) % h) + x % 2
  {
    var q, m := (x / 2) / h, (x / 2) % h;
    assert x / 2 == h * q + m;
    assert x == 2 * (x / 2) + x % 2;
    assert x == (2 * h) * q + (2 * m + x % 2);
    ModUnique(x, 2 * h, q, 2 * m + x % 2);
  }

  /** Reducing modulo 2^64 first does not change the remainder modulo a power of two. */
  lemma WordModIsMod(x: int, size: nat)
    requires IsPowerOfTwo(size) && size <= MAX_POWER_OF_TWO
    ensures (x % USIZE_MODULUS) % size == x % size
  {
    UsizeModulusIsPowerOfTwo();
    var m := PowerOfTwoDivides(size, USIZE_MODULUS);
    var k := x / USIZE_MODULUS;
    assert x == USIZE_MODULUS * k + x % USIZE_MODULUS;
    MulAssoc(size, m, k);
    ModShift(x % USIZE_MODULUS, size, m * k);
  }

  /** Below `2n`, the remainder modulo `n` is at most one subtraction away. */
  lemma ModSmall(x: nat, n: nat)
    requires 0 < n && x < 2 * n
    ensures x % n == if x < n then x else x - n
  {
    ModUnique(x, n, if x < n then 0 else 1, if x < n then x else x - n);
  }

  /** Adding a multiple of `n` does not change the remainder. */
  lemma ModShift(x: int, n: nat, k: int)
    requires n > 0
    ensures (x + n * k) % n == x % n
  {
    ModUnique(x + n * k, n, x / n + k, x % n);
  }

  /** Euclidean division is unique. */
  lemma ModUnique(x: int, n: nat, q: int, r: int)
    requires n > 0 && 0 <= r < n && x == n * q + r
    ensures x % n == r && x / n == q
  {
    var q', r' := x / n, x % n;
    assert x == n * q' + r';
    assert n * (q - q') == r' - r;
    if q > q' {
      MulAtLeast(n, q - q');
    } else if q < q' {
      MulAtLeast(n, q' - q);
    }
  }

  /** A positive multiple of `n` is at least `n`; kept apart like `MulAssoc`. */
  lemma MulAtLeast(n: nat, d: nat)
    requires d >= 1
    ensures n * d >= n
  {
  }
}
