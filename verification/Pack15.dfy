/** Fifteen bits in two bytes of at least 64, so that no coded byte can be
    mistaken for a control character. */
module Pack15 {
  import opened Bits
  import opened BitCodec

  /** `unpack_15` on a little-endian pair of bytes, in 16-bit arithmetic. */
  function Unpack15(val: nat): nat
    requires val < 0x1_0000
  {
    Assemble(val, TopField(val))
  }

  /** `hb`: the two top bit pairs as base-3 digits, minus four, in 16 bits. */
  function TopField(val: nat): nat
    requires val < 0x1_0000
  {
    (And(Shr(val, 14), 3) * 3 + And(Shr(val, 6), 3) + 0xFFFC) % 0x1_0000
  }

  function Assemble(val: nat, hb: nat): nat {
    Or(Or(And(val, 0x3F3F), And(hb, 4) * 0x1000), And(hb, 3) * 0x40)
  }

  function Pair(lo: byte, hi: byte): (r: nat)
    ensures r < 0x1_0000
  {
    lo + 256 * hi
  }

  /** The sender's packing: the three high bits plus four, as two base-3 digits 1 to 3. */
  function HighDigit(hb: nat): (h: nat)
    ensures 1 <= h <= 3
  {
    if hb < 3 then 1 else if hb < 6 then 2 else 3
  }

  function LowDigit(hb: nat): (l: nat)
    requires hb < 8
    ensures 1 <= l <= 3
  {
    hb + 4 - 3 * HighDigit(hb)
  }

  function HighBits(w: nat): (hb: nat)
    requires w < WORD
    ensures hb < 8
  {
    w / 0x4000 * 4 + w / 64 % 4
  }

  function PackLo(w: nat): byte
    requires w < WORD
  {
    64 * LowDigit(HighBits(w)) + w % 64
  }

  function PackHi(w: nat): byte
    requires w < WORD
  {
    64 * HighDigit(HighBits(w)) + w / 256 % 64
  }

  /** A byte pair that can come from packing. */
  predicate PackedPair(lo: byte, hi: byte) {
    lo >= 64 && hi >= 64 && !(lo >= 192 && hi >= 192)
  }

  // ---- bit operators on parts -----------------------------------------------

  function Concat(a: nat, b: nat, k: nat): nat {
    a + b * Pow2(k)
  }

  lemma HalfConcat(a: nat, b: nat, k: nat)
    requires k > 0
    ensures (a + b * Pow2(k)) % 2 == a % 2
    ensures (a + b * Pow2(k)) / 2 == a / 2 + b * Pow2(k - 1)
  {
    var p := b * Pow2(k - 1);
    assert b * Pow2(k) == 2 * p;
    assert a + 2 * p == 2 * (a / 2 + p) + a % 2;
  }

  lemma DoubleProduct(p: nat, q: nat)
    ensures 2 * p * q == 2 * (p * q)
  {
  }

  lemma AndHalf(x: nat, m: nat)
    ensures And(x, m) == (if x % 2 == 1 && m % 2 == 1 then 1 else 0) + 2 * And(x / 2, m / 2)
  {
  }

  lemma OrHalf(x: nat, m: nat)
    ensures Or(x, m) == (if x % 2 == 1 || m % 2 == 1 then 1 else 0) + 2 * Or(x / 2, m / 2)
  {
  }

  lemma {:induction false} AndConcat(a: nat, b: nat, m: nat, n: nat, k: nat, x: nat, y: nat)
    requires a < Pow2(k) && m < Pow2(k) && x == a + b * Pow2(k) && y == m + n * Pow2(k)
    ensures And(x, y) == And(a, m) + Pow2(k) * And(b, n)
    decreases k
  {
    if k > 0 {
      var q := And(b, n);
      HalfConcat(a, b, k);
      HalfConcat(m, n, k);
      AndConcat(a / 2, b, m / 2, n, k - 1, x / 2, y / 2);
      DoubleProduct(Pow2(k - 1), q);
      AndHalf(x, y);
      AndHalf(a, m);
    }
  }

  lemma {:induction false} OrConcat(a: nat, b: nat, m: nat, n: nat, k: nat, x: nat, y: nat)
    requires a < Pow2(k) && m < Pow2(k) && x == a + b * Pow2(k) && y == m + n * Pow2(k)
    ensures Or(x, y) == Or(a, m) + Pow2(k) * Or(b, n)
    decreases k
  {
    if k > 0 {
      var q := Or(b, n);
      HalfConcat(a, b, k);
      HalfConcat(m, n, k);
      OrConcat(a / 2, b, m / 2, n, k - 1, x / 2, y / 2);
      DoubleProduct(Pow2(k - 1), q);
      OrHalf(x, y);
      OrHalf(a, m);
    }
  }

  lemma AndConcatAt(a: nat, b: nat, m: nat, n: nat, k: nat, p: nat, x: nat, y: nat)
    requires p == Pow2(k) && a < p && m < p && x == a + b * p && y == m + n * p
    ensures And(x, y) == And(a, m) + p * And(b, n)
  {
    AndConcat(a, b, m, n, k, x, y);
  }

  lemma OrConcatAt(a: nat, b: nat, m: nat, n: nat, k: nat, p: nat, x: nat, y: nat)
    requires p == Pow2(k) && a < p && m < p && x == a + b * p && y == m + n * p
    ensures Or(x, y) == Or(a, m) + p * Or(b, n)
  {
    OrConcat(a, b, m, n, k, x, y);
  }

  lemma OrDisjointAt(a: nat, m: nat, k: nat, p: nat, y: nat)
    requires p == Pow2(k) && a < p && y == m * p
    ensures Or(a, y) == a + y
  {
    OrDisjoint(a, m, k);
  }

  lemma SmallPowers()
    ensures Pow2(1) == 2 && Pow2(2) == 4 && Pow2(6) == 64 && Pow2(8) == 256 && Pow2(14) == 0x4000
  {
    assert Pow2(4) == 16;
    Pow2Add(8, 6);
  }

  // The operators for the widths used here, each on its own.

  /** `x | (m << 14)` and `x | (m << 6)` for an `x` below. */
  lemma OrAbove14(x: nat, m: nat, y: nat)
    requires x < 0x4000 && y == 0x4000 * m
    ensures Or(x, y) == x + y
  {
    SmallPowers();
    OrDisjointAt(x, m, 14, 0x4000, y);
  }

  lemma OrAbove6(x: nat, m: nat, y: nat)
    requires x < 64 && y == 64 * m
    ensures Or(x, y) == x + y
  {
    SmallPowers();
    OrDisjointAt(x, m, 6, 64, y);
  }

  lemma OrZero(b: nat)
    ensures Or(b, 0) == b
  {
  }

  /** A byte joined into the low byte of a number. */
  lemma OrLowByte(a: nat, b: nat, z: nat, x: nat)
    requires a < 256 && z < 256 && x == a + 256 * b
    ensures Or(x, z) == Or(a, z) + 256 * b
  {
    SmallPowers();
    OrZero(b);
    OrConcatAt(a, b, z, 0, 8, 256, x, z);
  }

  lemma Mask1(x: nat)
    ensures And(x, 1) == x % 2
  {
    SmallPowers();
    AndMaskOf(x, 1, 1, 2);
  }

  lemma Mask3(x: nat)
    ensures And(x, 3) == x % 4
  {
    SmallPowers();
    AndMaskOf(x, 2, 3, 4);
  }

  lemma Mask63(x: nat)
    ensures And(x, 63) == x % 64
  {
    SmallPowers();
    AndMaskOf(x, 6, 63, 64);
  }

  lemma PairTops(lo: byte, hi: byte)
    ensures Pair(lo, hi) / 0x4000 % 4 == hi / 64 && Pair(lo, hi) / 64 % 4 == lo / 64
  {
    assert Pair(lo, hi) / 0x4000 == hi / 64 < 4;
    assert Pair(lo, hi) / 64 == lo / 64 + 4 * hi;
    assert lo / 64 < 4;
  }

  /** The two masks and shifts of the top bit pairs. */
  lemma TopBits(lo: byte, hi: byte)
    ensures And(Shr(Pair(lo, hi), 14), 3) == hi / 64 && And(Shr(Pair(lo, hi), 6), 3) == lo / 64
  {
    TopPair(Pair(lo, hi));
    PairTops(lo, hi);
  }

  lemma TopPair(val: nat)
    ensures And(Shr(val, 14), 3) == val / 0x4000 % 4 && And(Shr(val, 6), 3) == val / 64 % 4
  {
    SmallPowers();
    ShiftedPair(val, 14, 0x4000);
    ShiftedPair(val, 6, 64);
  }

  lemma ShiftedPair(val: nat, n: nat, p: nat)
    requires p == Pow2(n)
    ensures And(Shr(val, n), 3) == val / p % 4
  {
    ShrIsDivision(val, n);
    Mask3(Shr(val, n));
  }

  lemma KeptBits(lo: byte, hi: byte)
    ensures And(Pair(lo, hi), 0x3F3F) == lo % 64 + 256 * (hi % 64)
  {
    MaskHalves(lo, hi, 63, 63, 0x3F3F);
    Mask63(lo);
    Mask63(hi);
  }

  lemma MaskHalves(lo: byte, hi: byte, m: byte, n: byte, mask: nat)
    requires mask == m + n * 256
    ensures And(Pair(lo, hi), mask) == And(lo, m) + 256 * And(hi, n)
  {
    SmallPowers();
    AndConcatAt(lo, hi, m, n, 8, 256, Pair(lo, hi), mask);
  }

  lemma Bit2(hb: nat)
    ensures And(hb, 4) == 4 * (hb / 4 % 2)
  {
    SmallPowers();
    FourthBit(hb, hb % 4, hb / 4);
  }

  lemma FourthBit(hb: nat, a: nat, b: nat)
    requires a < 4 && hb == a + b * 4 && Pow2(2) == 4
    ensures And(hb, 4) == 4 * (b % 2)
  {
    AndConcatAt(a, b, 0, 1, 2, 4, hb, 4);
    Mask1(b);
    AndZero(a);
  }

  lemma AndZero(a: nat)
    ensures And(a, 0) == 0
  {
  }

  /** Putting the three parts together. */
  lemma JoinParts(a: nat, b: nat, t: nat, u: nat, x: nat, y: nat, z: nat)
    requires a < 64 && b < 64 && t < 2 && u < 4
    requires x == a + 256 * b && y == 0x4000 * t && z == 64 * u
    ensures Or(Or(x, y), z) == x + y + z
  {
    OrAbove14(x, t, y);
    OrLowByte(a, b + 64 * t, z, x + y);
    OrAbove6(a, u, z);
  }

  lemma AssembleParts(val: nat, hb: nat, a: nat, b: nat, t: nat, u: nat)
    requires a < 64 && b < 64 && t < 2 && u < 4
    requires And(val, 0x3F3F) == a + 256 * b && And(hb, 4) == 4 * t && And(hb, 3) == u
    ensures Assemble(val, hb) == a + 64 * u + 256 * b + 0x4000 * t
  {
    JoinParts(a, b, t, u, And(val, 0x3F3F), And(hb, 4) * 0x1000, And(hb, 3) * 0x40);
  }

  /** What the bit fiddling computes: two kept six-bit fields and three bits of `hb`. */
  lemma AssembleValue(lo: byte, hi: byte, hb: nat)
    ensures Assemble(Pair(lo, hi), hb) == lo % 64 + 64 * (hb % 4) + 256 * (hi % 64) + 0x4000 * (hb / 4 % 2)
  {
    KeptBits(lo, hi);
    Bit2(hb);
    Mask3(hb);
    AssembleParts(Pair(lo, hi), hb, lo % 64, hi % 64, hb / 4 % 2, hb % 4);
  }

  /** Unpacking always yields fifteen bits, whatever the bytes. */
  lemma Unpack15Bound(lo: byte, hi: byte)
    ensures Unpack15(Pair(lo, hi)) < WORD
  {
    AssembleValue(lo, hi, TopField(Pair(lo, hi)));
  }

  /** The word unpacked from two bytes. */
  function UnpackPair(lo: byte, hi: byte): (w: nat)
    ensures w < WORD
  {
    Unpack15Bound(lo, hi);
    Unpack15(Pair(lo, hi))
  }

  /** The four digit fields of a 15-bit word. */
  lemma Digits(x: nat, u: nat, y: nat, t: nat)
    requires x < 64 && u < 4 && y < 64
    ensures var w := x + 64 * u + 256 * y + 0x4000 * t;
            w % 64 == x && w / 64 % 4 == u && w / 256 % 64 == y && w / 0x4000 == t
  {
    var w := x + 64 * u + 256 * y + 0x4000 * t;
    assert w / 64 == u + 4 * y + 256 * t;
    assert w / 256 == y + 64 * t;
  }

  lemma DigitsOf(w: nat)
    ensures w == w % 64 + 64 * (w / 64 % 4) + 256 * (w / 256 % 64) + 0x4000 * (w / 0x4000)
  {
    var a := w / 64;
    var b := a / 4;
    assert w / 256 == b && w / 0x4000 == b / 64;
  }

  lemma ByteDigits(d: nat, x: nat)
    requires x < 64
    ensures (64 * d + x) / 64 == d && (64 * d + x) % 64 == x
  {
  }

  lemma Wrap(v: nat)
    requires 4 <= v < 16
    ensures (v + 0xFFFC) % 0x1_0000 == v - 4
  {
  }

  lemma TopFieldValue(lo: byte, hi: byte, hb: nat)
    requires hb < 8 && hi / 64 * 3 + lo / 64 == hb + 4
    ensures TopField(Pair(lo, hi)) == hb
  {
    TopBits(lo, hi);
    Wrap(hb + 4);
  }

  /** Unpacking a pair whose top digits encode `hb`. */
  lemma UnpackDigits(lo: byte, hi: byte, hb: nat)
    requires hb < 8 && hi / 64 * 3 + lo / 64 == hb + 4
    ensures Unpack15(Pair(lo, hi)) == lo % 64 + 64 * (hb % 4) + 256 * (hi % 64) + 0x4000 * (hb / 4)
  {
    TopFieldValue(lo, hi, hb);
    AssembleValue(lo, hi, hb);
    OneBit(hb / 4);
  }

  lemma OneBit(t: nat)
    requires t < 2
    ensures t % 2 == t
  {
  }

  /** Packing makes valid pairs, and unpacking inverts it. */
  lemma UnpackPack(w: nat)
    requires w < WORD
    ensures PackedPair(PackLo(w), PackHi(w))
    ensures Unpack15(Pair(PackLo(w), PackHi(w))) == w
  {
    var hb := HighBits(w);
    ByteDigits(LowDigit(hb), w % 64);
    ByteDigits(HighDigit(hb), w / 256 % 64);
    UnpackDigits(PackLo(w), PackHi(w), hb);
    HighBitsSplit(w);
    DigitsOf(w);
  }

  lemma UnpackPairPacked(w: nat)
    requires w < WORD
    ensures UnpackPair(PackLo(w), PackHi(w)) == w
  {
    UnpackPack(w);
  }

  lemma PackedAbove63(w: nat)
    requires w < WORD
    ensures PackLo(w) >= 64 && PackHi(w) >= 64
  {
  }

  lemma HighBitsSplit(w: nat)
    requires w < WORD
    ensures HighBits(w) % 4 == w / 64 % 4 && HighBits(w) / 4 == w / 0x4000
  {
  }

  lemma PackDigits(x: nat, y: nat, hb: nat)
    requires x < 64 && y < 64 && hb < 8
    ensures var w := x + 64 * (hb % 4) + 256 * y + 0x4000 * (hb / 4);
            w < WORD && PackLo(w) == 64 * LowDigit(hb) + x && PackHi(w) == 64 * HighDigit(hb) + y
  {
    Digits(x, hb % 4, y, hb / 4);
    assert hb / 4 * 4 + hb % 4 == hb;
  }

  /** Every valid pair is the packing of its unpacking: together with
      UnpackPack, unpacking is a bijection from valid pairs onto 0..32767. */
  lemma PackUnpack(lo: byte, hi: byte)
    requires PackedPair(lo, hi)
    ensures Unpack15(Pair(lo, hi)) < WORD
    ensures PackLo(Unpack15(Pair(lo, hi))) == lo && PackHi(Unpack15(Pair(lo, hi))) == hi
  {
    var h, l := hi / 64, lo / 64;
    assert 1 <= h <= 3 && 1 <= l <= 3 && h + l < 6;
    var hb := 3 * h + l - 4;
    UnpackDigits(lo, hi, hb);
    PackDigits(lo % 64, hi % 64, hb);
    assert HighDigit(hb) == h && LowDigit(hb) == l;
  }
}
