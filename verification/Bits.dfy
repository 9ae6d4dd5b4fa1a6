/** Powers of two and the C bit operators on non-negative integers. */
module Bits {

  function Pow2(n: nat): (r: nat)
    ensures r >= 1
  {
    if n == 0 then 1 else 2 * Pow2(n - 1)
  }

  /** Bit `k` of `n`, counted from the least significant bit. */
  predicate Bit(n: nat, k: nat) {
    if k == 0 then n % 2 == 1 else Bit(n / 2, k - 1)
  }

  /** `a | b` */
  function Or(a: nat, b: nat): nat
    decreases a + b
  {
    if a == 0 then b
    else if b == 0 then a
    else (if a % 2 == 1 || b % 2 == 1 then 1 else 0) + 2 * Or(a / 2, b / 2)
  }

  /** `a & b` */
  function And(a: nat, b: nat): nat
    decreases a
  {
    if a == 0 || b == 0 then 0
    else (if a % 2 == 1 && b % 2 == 1 then 1 else 0) + 2 * And(a / 2, b / 2)
  }

  /** `a >> k` */
  function Shr(a: nat, k: nat): nat
    decreases k
  {
    if k == 0 then a else Shr(a / 2, k - 1)
  }

  const U32: nat := 0x1_0000_0000

  /** `(uint32_t)(a << k)` */
  function Shl32(a: nat, k: nat): nat {
    Shl(a, k) % U32
  }

  function Shl(a: nat, k: nat): nat
    decreases k
  {
    if k == 0 then a else Shl(2 * a, k - 1)
  }

  /** The low `n` bits of a number. */
  function LowBits(a: nat, n: nat): nat
    decreases n
  {
    if n == 0 then 0 else a % 2 + 2 * LowBits(a / 2, n - 1)
  }

  // ---- division by products -------------------------------------------

  lemma {:induction false} MulMonotone(d: nat, a: int, b: int)
    requires a <= b
    ensures d * a <= d * b
    ensures a < b ==> d * a + d <= d * b
    decreases b - a
  {
    if a < b {
      MulMonotone(d, a, b - 1);
      assert d * b == d * (b - 1) + d;
    }
  }

  lemma DivModUnique(x: int, d: int, q: int, r: int)
    requires 0 <= r < d
    requires x == d * q + r
    ensures x / d == q && x % d == r
  {
    var q', r' := x / d, x % d;
    assert x == d * q' + r';
    if q > q' { MulMonotone(d, q', q); }
    if q < q' { MulMonotone(d, q, q'); }
  }

  lemma DivModProduct(x: nat, a: nat, b: nat)
    requires a > 0 && b > 0
    ensures a * b > 0
    ensures x / (a * b) == x / a / b
    ensures x % (a * b) == x % a + a * (x / a % b)
  {
    var q, r := x / a, x % a;
    var u, v := q / b, q % b;
    assert a * v + r < a * b by {
      MulMonotone(a, v, b - 1);
      assert a * (b - 1) == a * b - a;
    }
    assert x == (a * b) * u + (a * v + r) by {
      assert x == a * q + r;
      assert q == b * u + v;
      assert a * (b * u + v) == (a * b) * u + a * v;
    }
    assert a * b > 0;
    DivModUnique(x, a * b, u, a * v + r);
  }

  lemma {:induction false} Pow2Add(a: nat, b: nat)
    ensures Pow2(a + b) == Pow2(a) * Pow2(b)
  {
    if a == 0 {
    } else {
      Pow2Add(a - 1, b);
    }
  }

  lemma {:induction false} Pow2Monotone(a: nat, b: nat)
    requires a <= b
    ensures Pow2(a) <= Pow2(b)
    ensures a < b ==> Pow2(a) < Pow2(b)
    decreases b
  {
    if a < b {
      Pow2Monotone(a, b - 1);
    }
  }

  /** Shifting right twice is shifting right once by the sum; a wider
      remainder splits into a low part and the bits above it. */
  lemma SplitAt(x: nat, a: nat, b: nat)
    ensures x / Pow2(a + b) == x / Pow2(a) / Pow2(b)
    ensures x % Pow2(a + b) == x % Pow2(a) + Pow2(a) * (x / Pow2(a) % Pow2(b))
  {
    Pow2Add(a, b);
    DivModProduct(x, Pow2(a), Pow2(b));
  }

  /** Cutting to `a` bits and then to fewer is cutting once. */
  lemma ModMod(x: nat, a: nat, b: nat)
    requires b <= a
    ensures x % Pow2(a) % Pow2(b) == x % Pow2(b)
  {
    SplitAt(x, b, a - b);
    var hi := x / Pow2(b) % Pow2(a - b);
    DivModUnique(x % Pow2(a), Pow2(b), hi, x % Pow2(b));
  }

  lemma DivBound(x: nat, a: nat, b: nat)
    requires x < Pow2(a + b)
    ensures x / Pow2(a) < Pow2(b)
  {
    Pow2Add(a, b);
    var q := x / Pow2(a);
    assert x == Pow2(a) * q + x % Pow2(a);
    if q >= Pow2(b) {
      MulMonotone(Pow2(a), Pow2(b), q);
    }
  }

  // ---- bit operators ---------------------------------------------------

  lemma HalfShift(m: nat, k: nat)
    requires k > 0
    ensures (m * Pow2(k)) / 2 == m * Pow2(k - 1) && (m * Pow2(k)) % 2 == 0
  {
    assert m * Pow2(k) == 2 * (m * Pow2(k - 1));
  }

  /** OR of a value below 2^k with a multiple of 2^k is their sum. */
  lemma {:induction false} OrDisjoint(a: nat, m: nat, k: nat)
    requires a < Pow2(k)
    ensures Or(a, m * Pow2(k)) == a + m * Pow2(k)
  {
    if k == 0 || a == 0 || m * Pow2(k) == 0 {
    } else {
      HalfShift(m, k);
      OrDisjoint(a / 2, m, k - 1);
    }
  }

  /** AND with 2^n - 1 keeps the low n bits. */
  lemma AndMask(a: nat, n: nat)
    ensures And(a, Pow2(n) - 1) == a % Pow2(n)
  {
    AndMaskOf(a, n, Pow2(n) - 1, Pow2(n));
  }

  lemma {:induction false} AndMaskOf(a: nat, n: nat, m: nat, p: nat)
    requires p == Pow2(n) && m == p - 1
    ensures And(a, m) == a % p
    decreases n
  {
    if n > 0 {
      var half := Pow2(n - 1);
      AndMaskOf(a / 2, n - 1, half - 1, half);
      MaskStep(a, half, m);
    }
  }

  lemma MaskStep(a: nat, p: nat, m: nat)
    requires p > 0 && m == 2 * p - 1 && And(a / 2, p - 1) == a / 2 % p
    ensures And(a, m) == a % (2 * p)
  {
    assert m / 2 == p - 1 && m % 2 == 1;
    ModHalves(a, p);
  }

  /** The remainder by an even number, from the last digit and the rest. */
  lemma ModHalves(a: nat, p: nat)
    requires p > 0
    ensures a % (2 * p) == a % 2 + 2 * (a / 2 % p)
  {
    var h := a / 2;
    var q, r := h / p, h % p;
    assert h == p * q + r;
    assert a == 2 * h + a % 2;
    assert 2 * (p * q) == (2 * p) * q;
    DivModUnique(a, 2 * p, q, 2 * r + a % 2);
  }

  lemma {:induction false} OrBit(a: nat, b: nat, k: nat)
    ensures Bit(Or(a, b), k) == (Bit(a, k) || Bit(b, k))
  {
    if a == 0 {
      ZeroBit(k);
    } else if b == 0 {
      ZeroBit(k);
    } else if k > 0 {
      OrBit(a / 2, b / 2, k - 1);
    }
  }

  lemma {:induction false} ZeroBit(k: nat)
    ensures !Bit(0, k)
  {
    if k > 0 { ZeroBit(k - 1); }
  }

  lemma {:induction false} OrBound(a: nat, b: nat, n: nat)
    requires a < Pow2(n) && b < Pow2(n)
    ensures Or(a, b) < Pow2(n)
  {
    if a == 0 || b == 0 {
    } else {
      OrBound(a / 2, b / 2, n - 1);
    }
  }

  /** The mask (2 << hi) - (1 << lo) has exactly the bits lo..hi. */
  lemma {:induction false} RangeMaskBit(lo: nat, hi: nat, k: nat)
    requires lo <= hi
    ensures 2 * Pow2(hi) >= Pow2(lo)
    ensures Bit(2 * Pow2(hi) - Pow2(lo), k) == (lo <= k <= hi)
    decreases hi, lo, k
  {
    Pow2Monotone(lo, hi);
    if lo > 0 {
      if k > 0 { RangeMaskBit(lo - 1, hi - 1, k - 1); }
    } else if k > 0 {
      // 2^(hi+1) - 1 halves to 2^hi - 1
      if hi > 0 {
        RangeMaskBit(0, hi - 1, k - 1);
        assert (2 * Pow2(hi) - 1) / 2 == 2 * Pow2(hi - 1) - 1;
      } else {
        ZeroBit(k - 1);
      }
    }
  }

  lemma MaskBound(lo: nat, hi: nat)
    requires lo <= hi < 16
    ensures 0 <= 2 * Pow2(hi) - Pow2(lo) < Pow2(16)
  {
    Pow2Monotone(lo, hi);
    Pow2Monotone(hi + 1, 16);
  }

  /** Shifting right is dividing by a power of two. */
  lemma {:induction false} ShrIsDivision(a: nat, k: nat)
    ensures Shr(a, k) == a / Pow2(k)
  {
    if k > 0 {
      ShrIsDivision(a / 2, k - 1);
      SplitAt(a, 1, k - 1);
      assert Pow2(1) == 2;
    }
  }

  lemma {:induction false} ShrStep(a: nat, k: nat)
    ensures Shr(a, k + 1) == Shr(a, k) / 2
    ensures (Shr(a, k) % 2 == 1) == Bit(a, k)
  {
    if k > 0 { ShrStep(a / 2, k - 1); }
  }

  lemma {:induction false} ShrZero(a: nat, n: nat, k: nat)
    requires a < Pow2(n) && n <= k
    ensures Shr(a, k) == 0
    decreases k
  {
    if k > 0 { ShrZero(a / 2, if n > 0 then n - 1 else 0, k - 1); }
  }

  lemma {:induction false} NoBitsAbove(a: nat, k: nat, j: nat)
    requires Shr(a, k) == 0 && k <= j
    ensures !Bit(a, j)
  {
    if k > 0 { NoBitsAbove(a / 2, k - 1, j - 1); } else { ZeroBit(j); }
  }

  lemma U32IsPow2()
    ensures U32 == Pow2(32)
  {
    assert Pow2(4) == 16;
    Pow2Add(4, 4);
    Pow2Add(8, 8);
    Pow2Add(16, 16);
  }

  lemma {:induction false} ShlIsProduct(a: nat, k: nat)
    ensures Shl(a, k) == a * Pow2(k)
    decreases k
  {
    if k > 0 { ShlIsProduct(2 * a, k - 1); }
  }

  lemma {:induction false} LowBitsIsMod(a: nat, n: nat)
    ensures LowBits(a, n) == a % Pow2(n)
  {
    if n > 0 {
      LowBitsIsMod(a / 2, n - 1);
      SplitAt(a, 1, n - 1);
      assert Pow2(1) == 2;
    }
  }
}
