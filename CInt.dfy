/**
 * The C integer semantics the HX711 driver relies on: the fixed-width
 * types it uses (`uint32_t`, `int32_t`, `int64_t`), the conversions between
 * them, the bitwise operators it applies to a frame (`<<`, `&`, `|`) and C's
 * division, which truncates toward zero where Dafny's `/` is Euclidean.
 */
module CInt {

  type u32 = x: int | 0 <= x < 0x1_0000_0000
  type i32 = x: int | -0x8000_0000 <= x < 0x8000_0000
  type i64 = x: int | -0x8000_0000_0000_0000 <= x < 0x8000_0000_0000_0000

  /** 2 to the power n. */
  function Pow2(n: nat): (p: nat)
    ensures p >= 1
  {
    if n == 0 then 1 else 2 * Pow2(n - 1)
  }

  function Abs(x: int): nat
  {
    if x < 0 then -x else x
  }

  lemma {:induction false} Pow2Add(m: nat, n: nat)
    ensures Pow2(m + n) == Pow2(m) * Pow2(n)
  {
    if m > 0 {
      Pow2Add(m - 1, n);
    }
  }

  lemma {:induction false} Pow2Monotone(m: nat, n: nat)
    requires m <= n
    ensures Pow2(m) <= Pow2(n)
  {
    if m < n {
      Pow2Monotone(m, n - 1);
    }
  }

  /** The powers of two that name the driver's masks and ranges. */
  lemma Pow2Constants()
    ensures Pow2(23) == 0x80_0000
    ensures Pow2(24) == 0x100_0000
    ensures Pow2(32) == 0x1_0000_0000
  {
    assert Pow2(7) == 0x80 && Pow2(8) == 0x100;
    Pow2Add(8, 8);
    Pow2Add(16, 7);
    Pow2Add(16, 8);
    Pow2Add(16, 16);
  }

  /** The powers of two up to bit 23 stay at most 2^23. */
  lemma Pow2UpTo23(n: nat)
    requires n <= 23
    ensures Pow2(n) <= 0x80_0000
  {
    Pow2Monotone(n, 23);
    Pow2Constants();
  }

  /**
   * `(int32_t) u` for a `uint32_t` u: the two's-complement reinterpretation
   * of the same 32 bits (the modular conversion GCC documents).
   */
  function ToInt32(u: u32): i32
  {
    if u < 0x8000_0000 then u else u - 0x1_0000_0000
  }

  /** `(uint32_t) x` for an `int32_t` x: reduction modulo 2^32. */
  function ToUint32(x: i32): u32
  {
    if x >= 0 then x else x + 0x1_0000_0000
  }

  /**
   * `(int32_t) q` for an `int64_t` q: only the low 32 bits are kept.
   */
  function Int64ToInt32(q: i64): i32
  {
    (q + 0x8000_0000) % 0x1_0000_0000 - 0x8000_0000
  }

  /**
   * Both conversions keep the value modulo 2^32, and converting a word to
   * `int32_t` and back gives the word again (what `return (int32_t) data;`
   * does in a function returning `uint32_t`).
   */
  lemma ConversionsKeepBits(u: u32, x: i32)
    ensures (ToInt32(u) - u) % 0x1_0000_0000 == 0
    ensures (ToUint32(x) - x) % 0x1_0000_0000 == 0
    ensures ToUint32(ToInt32(u)) == u
    ensures ToInt32(ToUint32(x)) == x
  {
  }

  /** Narrowing an `int64_t` keeps its value modulo 2^32, and every value already in range. */
  lemma NarrowingKeepsInRange(q: i64)
    ensures (Int64ToInt32(q) - q) % 0x1_0000_0000 == 0
    ensures -0x8000_0000 <= q < 0x8000_0000 ==> Int64ToInt32(q) == q
  {
  }

  /** `x << 1` on a `uint32_t`: bit 31 is shifted out and lost. */
  function Shl1(x: u32): (r: u32)
    ensures r % 2 == 0
    ensures x < 0x8000_0000 ==> r == 2 * x
  {
    (2 * x) % 0x1_0000_0000
  }

  /** `a & b` on unsigned integers, bit by bit from the least significant. */
  function BitAnd(a: nat, b: nat): (r: nat)
    ensures r <= a && r <= b
  {
    if a == 0 || b == 0 then 0
    else 2 * BitAnd(a / 2, b / 2) + (if a % 2 == 1 && b % 2 == 1 then 1 else 0)
  }

  /** `a | b` on unsigned integers, bit by bit from the least significant. */
  function BitOr(a: nat, b: nat): (r: nat)
    ensures a <= r && b <= r && r <= a + b
    decreases a + b
  {
    if a == 0 then b
    else if b == 0 then a
    else 2 * BitOr(a / 2, b / 2) + (if a % 2 == 1 || b % 2 == 1 then 1 else 0)
  }

  /** `v & 0x1` is the least significant bit of v. */
  lemma AndOne(v: nat)
    ensures BitAnd(v, 1) == v % 2
  {
    if v != 0 {
      assert BitAnd(v / 2, 0) == 0;
    }
  }

  /** OR-ing a bit into the (zero) low position of an even number adds it. */
  lemma OrLowBit(x: nat, bit: nat)
    requires bit < 2
    ensures BitOr(2 * x, bit) == 2 * x + bit
  {
    if x != 0 && bit != 0 {
      assert BitOr(x, 0) == x;
    }
  }

  /**
   * OR-ing a value that is a multiple of 2^k into one below 2^k touches
   * disjoint bits, so it is plain addition.
   */
  lemma {:induction false} OrDisjoint(a: nat, m: nat, k: nat)
    requires a < Pow2(k)
    ensures BitOr(a, m * Pow2(k)) == a + m * Pow2(k)
  {
    if k == 0 || a == 0 || m == 0 {
    } else {
      var b := m * Pow2(k);
      assert b == 2 * (m * Pow2(k - 1));
      assert b % 2 == 0 && b / 2 == m * Pow2(k - 1);
      OrDisjoint(a / 2, m, k - 1);
    }
  }

  /** For a below 2^(k+1), `a & 2^k` tests exactly whether a reaches 2^k. */
  lemma {:induction false} AndSingleBit(a: nat, k: nat)
    requires a < Pow2(k + 1)
    ensures BitAnd(a, Pow2(k)) != 0 <==> a >= Pow2(k)
  {
    if k == 0 {
      AndOne(a);
    } else if a != 0 {
      assert Pow2(k) == 2 * Pow2(k - 1);
      AndSingleBit(a / 2, k - 1);
    }
  }

  /**
   * `a / b` as C computes it: the quotient truncated toward zero, where
   * Dafny's `/` rounds toward negative infinity for a positive divisor.
   */
  function TruncDiv(a: int, b: int): int
    requires b != 0
  {
    var m := Abs(a) / Abs(b);
    if (a < 0) == (b < 0) then m else -m
  }

  /** Zero divided by anything is zero. */
  lemma TruncDivOfZero(b: int)
    requires b != 0
    ensures TruncDiv(0, b) == 0
  {
    assert Abs(0) == 0;
  }

  /** The remainder C leaves next to q: it has the sign of the dividend. */
  ghost predicate IsTruncQuotient(a: int, b: int, q: int)
  {
    var r := a - q * b;
    Abs(r) < Abs(b) && (r == 0 || (r < 0) == (a < 0))
  }

  /** The quotient times the divisor is the dividend's magnitude rounded down to a multiple, with the dividend's sign. */
  lemma TruncQuotientTimesDivisor(a: int, b: int)
    requires b != 0
    ensures TruncDiv(a, b) * b == if a >= 0 then Abs(a) / Abs(b) * Abs(b) else -(Abs(a) / Abs(b) * Abs(b))
  {
    var m: int := Abs(a) / Abs(b);
    if b > 0 {
      if a < 0 {
        NegateProduct(m, b);
      }
    } else if a >= 0 {
      NegateProduct(m, -b);
      assert TruncDiv(a, b) * b == (-m) * b == m * (-b);
    } else {
      NegateProduct(m, -b);
      assert TruncDiv(a, b) * b == m * b == -(m * (-b));
    }
  }

  /** The remainder C leaves is the dividend's magnitude modulo the divisor's, with the dividend's sign. */
  lemma TruncRemainderValue(a: int, b: int)
    requires b != 0
    ensures a - TruncDiv(a, b) * b == if a >= 0 then Abs(a) % Abs(b) else -(Abs(a) % Abs(b))
  {
    var x, y := Abs(a), Abs(b);
    assert x == x / y * y + x % y;
    TruncQuotientTimesDivisor(a, b);
  }

  /** The quotient TruncDiv computes leaves the remainder C promises. */
  lemma TruncDivRemainder(a: int, b: int)
    requires b != 0
    ensures IsTruncQuotient(a, b, TruncDiv(a, b))
  {
    TruncRemainderValue(a, b);
    var n := Abs(a) % Abs(b);
    assert 0 <= n < Abs(b);
  }

  lemma NegateProduct(x: int, y: int)
    ensures (-x) * y == -(x * y) && x * (-y) == -(x * y)
  {
  }

  /** A nonzero multiple of b is at least as large as b in magnitude. */
  lemma MulAbsAtLeast(d: int, b: int)
    requires d != 0
    ensures Abs(d * b) >= Abs(b)
  {
    var x, y := Abs(d), Abs(b);
    assert x * y == y + (x - 1) * y;
    assert Abs(d * b) == x * y by {
      if d < 0 && b < 0 {
        assert d * b == (-d) * (-b);
      } else if d < 0 {
        assert d * b == -((-d) * b);
      } else if b < 0 {
        assert d * b == -(d * (-b));
      }
    }
  }

  /** Only one quotient leaves a remainder of the dividend's sign below the divisor. */
  lemma {:induction false} TruncQuotientUnique(a: int, b: int, q1: int, q2: int)
    requires b != 0
    requires IsTruncQuotient(a, b, q1) && IsTruncQuotient(a, b, q2)
    ensures q1 == q2
  {
    var r1, r2 := a - q1 * b, a - q2 * b;
    assert r1 - r2 == (q2 - q1) * b;
    assert Abs(r1 - r2) < Abs(b);
    if q1 != q2 {
      MulAbsAtLeast(q2 - q1, b);
      assert false;
    }
  }

  /**
   * TruncDiv is C's division: it is the one quotient whose remainder is
   * smaller than the divisor and carries the sign of the dividend.
   */
  lemma TruncDivIsCDivision(a: int, b: int, q: int)
    requires b != 0
    ensures IsTruncQuotient(a, b, q) <==> q == TruncDiv(a, b)
  {
    TruncDivRemainder(a, b);
    if IsTruncQuotient(a, b, q) {
      TruncQuotientUnique(a, b, q, TruncDiv(a, b));
    }
  }

  /** x <= y and b > 0 give x * b <= y * b. */
  lemma MulMonotone(x: int, y: int, b: int)
    requires x <= y && b > 0
    ensures x * b <= y * b
  {
    assert y * b - x * b == (y - x) * b;
  }

  /** Dafny's quotient by a positive divisor stays between bounds that enclose the dividend. */
  lemma FloorDivBetween(x: int, b: int, lo: int, hi: int)
    requires b > 0 && b * lo <= x <= b * hi
    ensures lo <= x / b <= hi
  {
    var q := x / b;
    assert q * b <= x < q * b + b;
    if q < lo {
      MulMonotone(q + 1, lo, b);
      assert false;
    }
    if q > hi {
      MulMonotone(hi + 1, q, b);
      assert false;
    }
  }

  /**
   * A truncating quotient by a positive divisor stays between any bounds
   * that, multiplied by the divisor, enclose the dividend.
   */
  lemma TruncDivBetween(a: int, b: int, lo: int, hi: int)
    requires b > 0 && b * lo <= a <= b * hi
    ensures lo <= TruncDiv(a, b) <= hi
  {
    if a >= 0 {
      FloorDivBetween(a, b, lo, hi);
    } else {
      NegateProduct(hi, b);
      NegateProduct(lo, b);
      FloorDivBetween(-a, b, -hi, -lo);
    }
  }
}
