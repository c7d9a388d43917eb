/** Java `long` values, their 64-bit patterns, and the power-of-two arithmetic the
    shift-and-mask codec is built from. A `Word` is the unsigned reading of a long's
    64 bits, so `w / Pow2(s)` is `w >>> s` and `w % Pow2(s)` is `w & ((1L << s) - 1)`. */
module Words {

  const WordModulus: nat := 0x1_0000_0000_0000_0000

  /** A Java `long`. */
  type Long = x: int | -0x8000_0000_0000_0000 <= x < 0x8000_0000_0000_0000

  /** The 64 bits of a `long`, read as an unsigned number. */
  type Word = w: nat | w < 0x1_0000_0000_0000_0000

  function Pow2(n: nat): (r: nat)
    ensures r >= 1
  {
    if n == 0 then 1 else 2 * Pow2(n - 1)
  }

  /** The bit pattern of a long (two's complement). */
  function ToWord(x: Long): (w: Word)
    ensures 0 <= x ==> w == x
    ensures x < 0 ==> w == x + WordModulus
  {
    x % WordModulus
  }

  /** The long whose bit pattern is `w`. */
  function ToLong(w: Word): (x: Long)
    ensures ToWord(x) == w
  {
    if w < 0x8000_0000_0000_0000 then w else w - WordModulus
  }

  lemma Pow2Byte()
    ensures Pow2(3) == 8 && Pow2(8) == 256
  {
    assert Pow2(3) == 8;
    assert Pow2(8) == 32 * Pow2(3);
  }

  lemma Pow2HalfWord()
    ensures Pow2(32) == 0x1_0000_0000
  {
    Pow2Sixteen();
    Pow2Add(16, 16);
  }

  lemma Pow2Sixteen()
    ensures Pow2(16) == 0x1_0000
  {
    Pow2Byte();
    Pow2Add(8, 8);
  }

  lemma Pow2Word()
    ensures Pow2(32) == 0x1_0000_0000
    ensures Pow2(33) == 0x2_0000_0000
    ensures Pow2(63) == 0x8000_0000_0000_0000
    ensures Pow2(64) == WordModulus
  {
    Pow2HalfWord();
    Pow2Add(1, 32);
    Pow2Add(31, 32);
    Pow2Add(1, 31);
    Pow2Add(32, 32);
  }

  lemma {:induction false} Pow2Add(a: nat, b: nat)
    ensures Pow2(a + b) == Pow2(a) * Pow2(b)
  {
    if a > 0 {
      Pow2Add(a - 1, b);
      calc {
        Pow2(a + b);
        2 * Pow2(a - 1 + b);
        2 * (Pow2(a - 1) * Pow2(b));
        (2 * Pow2(a - 1)) * Pow2(b);
      }
    }
  }

  lemma {:induction false} Pow2Monotone(a: nat, b: nat)
    requires a <= b
    ensures Pow2(a) <= Pow2(b)
  {
    if a < b {
      Pow2Monotone(a, b - 1);
    }
  }

  /** `a * m + b` with `0 <= b < m` has quotient `a` and remainder `b`. */
  lemma DivModOfSum(a: int, b: int, m: int)
    requires 0 <= b < m
    ensures (a * m + b) / m == a
    ensures (a * m + b) % m == b
  {
    var q, r := (a * m + b) / m, (a * m + b) % m;
    assert (q - a) * m == b - r;
    ZeroMultiple(q - a, m);
  }

  /** The only multiple of `m` strictly between `-m` and `m` is zero. */
  lemma ZeroMultiple(k: int, m: int)
    requires m > 0 && -m < k * m < m
    ensures k == 0
  {
    if k > 0 {
      MulAtLeast(k, m);
    } else if k < 0 {
      MulAtLeast(-k, m);
    }
  }

  lemma {:induction false} MulAtLeast(k: int, m: int)
    requires k >= 1 && m >= 0
    ensures k * m >= m
  {
    if k > 1 {
      MulAtLeast(k - 1, m);
    }
  }

  /** Adding a multiple of `m` does not change a remainder modulo `m`. */
  lemma ModAddMultiple(k: int, x: int, m: int)
    requires m > 0
    ensures (k * m + x) % m == x % m
  {
    assert k * m + x == (k + x / m) * m + x % m;
    DivModOfSum(k + x / m, x % m, m);
  }

  /** Reducing modulo a multiple of `m` keeps the remainder modulo `m`. */
  lemma ModOfMultiple(x: int, m: int, k: int)
    requires m > 0 && k > 0
    ensures (x % (m * k)) % m == x % m
  {
    var q := x / (m * k);
    assert x == (q * k) * m + x % (m * k);
    ModAddMultiple(q * k, x % (m * k), m);
  }

  /** Multiplying by a non-negative factor keeps an order. */
  lemma MulMonotone(a: int, b: int, c: int)
    requires a <= b && c >= 0
    ensures a * c <= b * c
  {
    assert b * c - a * c == (b - a) * c;
  }

  /** A value already below the modulus is its own remainder. */
  lemma ModBelow(x: int, m: int)
    requires 0 <= x < m
    ensures x % m == x
  {
    DivModOfSum(0, x, m);
  }

  /** A value below `p * s` has a quotient by `s` below `p`. */
  lemma QuotientBelow(w: int, s: int, p: int)
    requires s > 0 && 0 <= w < s * p
    ensures w / s < p
  {
    if w / s >= p {
      MulMonotone(p, w / s, s);
    }
  }

  /** Scaling by `s` commutes with reduction: `(x * s) % (s * p) == (x % p) * s`. */
  lemma ScaledMod(x: int, s: int, p: int)
    requires s > 0 && p > 0
    ensures (x * s) % (s * p) == (x % p) * s
  {
    var q, r := x / p, x % p;
    MulMonotone(r, p - 1, s);
    calc {
      x * s;
      (q * p + r) * s;
      q * (s * p) + r * s;
    }
    DivModOfSum(q, r * s, s * p);
  }

  /** `hi * s + lo` with `hi < p` and `lo < s` stays below `s * p` and splits back
      into `hi` and `lo`. */
  lemma PackedParts(hi: int, lo: int, s: int, p: int)
    requires 0 <= hi < p && 0 <= lo < s
    ensures 0 <= hi * s + lo < s * p
    ensures (hi * s + lo) / s == hi
    ensures (hi * s + lo) % s == lo
  {
    MulMonotone(hi, p - 1, s);
    assert (p - 1) * s == s * p - s;
    DivModOfSum(hi, lo, s);
  }

  /** A number is determined by its quotient and remainder. */
  lemma SameQuotientRemainder(a: int, b: int, m: int)
    requires m > 0 && a / m == b / m && a % m == b % m
    ensures a == b
  {
    assert a == m * (a / m) + a % m;
    assert b == m * (b / m) + b % m;
  }

  lemma QuotientNonNegative(a: int, m: int)
    requires a >= 0 && m > 0
    ensures a / m >= 0
  {
  }
}
