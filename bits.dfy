/** Unsigned 32-bit arithmetic as the server's C++ code uses it (`uint32_t`):
    shifts, masks and increments wrap modulo 2^32, and the bitwise operators are
    defined bit by bit on natural numbers. */
module Bits {

  const TWO_16: nat := 0x1_0000
  const TWO_32: nat := 0x1_0000_0000

  /** The values of a C++ `uint32_t`. */
  type u32 = x: int | 0 <= x < 0x1_0000_0000

  function Pow2(k: nat): (r: nat)
    ensures r >= 1
  {
    if k == 0 then 1 else 2 * Pow2(k - 1)
  }

  lemma Pow2Is16()
    ensures Pow2(16) == TWO_16
  {
    assert Pow2(2) == 4;
    assert Pow2(4) == 16;
    assert Pow2(6) == 64;
    assert Pow2(8) == 256;
    assert Pow2(10) == 1024;
    assert Pow2(12) == 4096;
    assert Pow2(14) == 16384;
  }

  /** Bitwise `a | b`. */
  function Or(a: nat, b: nat): nat
    decreases a + b
  {
    if a == 0 then b
    else if b == 0 then a
    else 2 * Or(a / 2, b / 2) + (if a % 2 == 1 || b % 2 == 1 then 1 else 0)
  }

  /** Bitwise `a & b`. */
  function And(a: nat, b: nat): nat
    decreases a + b
  {
    if a == 0 || b == 0 then 0
    else 2 * And(a / 2, b / 2) + (if a % 2 == 1 && b % 2 == 1 then 1 else 0)
  }

  /** `x << k` on `uint32_t`: the bits shifted past bit 31 are lost. */
  function ShiftLeft(x: u32, k: nat): u32
  {
    (x * Pow2(k)) % TWO_32
  }

  /** `x >> k` on `uint32_t`. */
  function ShiftRight(x: u32, k: nat): u32
  {
    DivAtMost(x, Pow2(k));
    x / Pow2(k)
  }

  /** `a + b` on `uint32_t`, wrapping around at 2^32. */
  function Add(a: u32, b: u32): u32
  {
    (a + b) % TWO_32
  }

  // ---------------------------------------------------------------------------
  // Division facts used by the closed forms below.

  lemma DivModUnique(x: int, d: int, q: int, r: int)
    requires d > 0 && x == d * q + r && 0 <= r < d
    ensures x / d == q && x % d == r
  {
    var q', r' := x / d, x % d;
    assert x == d * q' + r';
    if q' > q {
      assert d * q' == d * q + d * (q' - q);
      MulAtLeast(d, q' - q);
    } else if q' < q {
      assert d * q == d * q' + d * (q - q');
      MulAtLeast(d, q - q');
    }
  }

  lemma DivAtMost(x: nat, d: nat)
    requires d >= 1
    ensures 0 <= x / d <= x
  {
    var q, r := x / d, x % d;
    assert x == d * q + r;
    if q >= 1 {
      MulAtLeast(q, d);
    }
  }

  lemma MulAtLeast(d: int, k: int)
    requires d > 0 && k >= 1
    ensures d * k >= d
  {
  }

  lemma MulAtMostZero(d: int, k: int)
    requires d > 0 && k <= 0
    ensures d * k <= 0
  {
  }

  /** One step of peeling the lowest bit off a remainder. */
  lemma ModDouble(x: nat, p: nat)
    requires p >= 1
    ensures x % (2 * p) == 2 * ((x / 2) % p) + x % 2
  {
    var q, b := (x / 2) / p, (x / 2) % p;
    assert x / 2 == p * q + b;
    assert x == (2 * p) * q + (2 * b + x % 2);
    DivModUnique(x, 2 * p, q, 2 * b + x % 2);
  }

  /** `(x % (a * b)) % b == x % b`. */
  lemma ModMod(x: int, a: nat, b: nat)
    requires a >= 1 && b >= 1
    ensures (x % (a * b)) % b == x % b
  {
    var q, r := x / (a * b), x % (a * b);
    assert x == (a * b) * q + r;
    var q2, r2 := r / b, r % b;
    assert r == b * q2 + r2;
    assert x == b * (a * q + q2) + r2;
    DivModUnique(x, b, a * q + q2, r2);
  }

  /** `((a % m) + b) % m == (a + b) % m`. */
  lemma ModAddLeft(a: int, b: int, m: nat)
    requires m >= 1
    ensures ((a % m) + b) % m == (a + b) % m
  {
    var q := a / m;
    assert a == m * q + a % m;
    var q2, r2 := ((a % m) + b) / m, ((a % m) + b) % m;
    assert (a % m) + b == m * q2 + r2;
    assert a + b == m * (q + q2) + r2;
    DivModUnique(a + b, m, q + q2, r2);
  }

  /** Two integers less than `m` apart have different remainders modulo `m`. */
  lemma ModDistinct(x: int, y: int, m: nat)
    requires m >= 1 && 0 < y - x < m
    ensures x % m != y % m
  {
    var qx, qy := x / m, y / m;
    assert x == m * qx + x % m && y == m * qy + y % m;
    if x % m == y % m {
      var k := qy - qx;
      assert y - x == m * k;
      if k >= 1 {
        MulAtLeast(m, k);
      } else {
        MulAtMostZero(m, k);
      }
    }
  }

  // ---------------------------------------------------------------------------
  // Closed forms of the bitwise operators.

  /** Masking with `2^k - 1` keeps the remainder modulo `2^k`. */
  lemma {:induction false} AndLowMask(x: nat, k: nat)
    ensures And(x, Pow2(k) - 1) == x % Pow2(k)
  {
    if k == 0 {
    } else if x == 0 {
    } else {
      var m := Pow2(k) - 1;
      assert m % 2 == 1 && m / 2 == Pow2(k - 1) - 1;
      AndLowMask(x / 2, k - 1);
      ModDouble(x, Pow2(k - 1));
    }
  }

  /** Or-ing a value below `2^k` into a multiple of `2^k` is addition. */
  lemma {:induction false} OrDisjoint(a: nat, b: nat, k: nat)
    requires b < Pow2(k)
    ensures Or(a * Pow2(k), b) == a * Pow2(k) + b
  {
    if k == 0 {
    } else if a == 0 || b == 0 {
    } else {
      var p := Pow2(k - 1);
      assert a * Pow2(k) == 2 * (a * p);
      assert (a * Pow2(k)) / 2 == a * p && (a * Pow2(k)) % 2 == 0;
      OrDisjoint(a, b / 2, k - 1);
    }
  }

  /** `x & 0xFFFF` is `x mod 65536`. */
  lemma AndLow16(x: nat)
    ensures And(x, 0xFFFF) == x % TWO_16
  {
    Pow2Is16();
    AndLowMask(x, 16);
  }

  /** `x << 16` on `uint32_t` keeps only the low 16 bits of `x`, moved up. */
  lemma ShiftLeft16(x: u32)
    ensures ShiftLeft(x, 16) == (x % TWO_16) * TWO_16
  {
    Pow2Is16();
    var q, r := x / TWO_16, x % TWO_16;
    assert x == TWO_16 * q + r;
    assert x * TWO_16 == TWO_32 * q + r * TWO_16;
    DivModUnique(x * TWO_16, TWO_32, q, r * TWO_16);
  }

  /** Packing a high half and a low half into one 32-bit word, and taking them back apart. */
  lemma Pack16(hi: u32, lo: nat)
    requires lo < TWO_16
    ensures Or(ShiftLeft(hi, 16), lo) == (hi % TWO_16) * TWO_16 + lo
    ensures Or(ShiftLeft(hi, 16), lo) < TWO_32
    ensures Or(ShiftLeft(hi, 16), lo) / TWO_16 == hi % TWO_16
    ensures Or(ShiftLeft(hi, 16), lo) % TWO_16 == lo
  {
    Pow2Is16();
    ShiftLeft16(hi);
    OrDisjoint(hi % TWO_16, lo, 16);
    var w := (hi % TWO_16) * TWO_16 + lo;
    assert w <= (TWO_16 - 1) * TWO_16 + (TWO_16 - 1);
    DivModUnique(w, TWO_16, hi % TWO_16, lo);
  }

  /** The range facts the 32-bit types need, without the closed forms: callers
      that only need a result to be in range use these, which keeps the
      closed forms of `AndLow16` and `Pack16` out of their proofs. */
  lemma AndLow16Bound(x: nat)
    ensures And(x, 0xFFFF) < TWO_16
  {
    AndLow16(x);
  }

  lemma Pack16Bound(hi: u32, lo: nat)
    requires lo < TWO_16
    ensures Or(ShiftLeft(hi, 16), lo) < TWO_32
  {
    Pack16(hi, lo);
  }
}
