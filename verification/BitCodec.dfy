/** The bit string carried by a frame: 15-bit words concatenated with the least
    significant bits first, seen as one number; and the coding of each word as
    two bytes of at least 64. */
module BitCodec {
  import opened Bits
  import opened Sequences

  type byte = b: int | 0 <= b < 256

  const WORD: nat := 0x8000

  predicate Word15(w: nat) { w < WORD }

  predicate Words15(ws: seq<nat>) {
    forall i :: 0 <= i < |ws| ==> Word15(ws[i])
  }

  /** The concatenation of the words as a number. */
  function Flat(ws: seq<nat>): nat {
    if ws == [] then 0 else ws[0] + WORD * Flat(ws[1..])
  }

  /** Bits [c, c + n) of a bit string, zero beyond its end. */
  function BitsAt(f: nat, c: nat, n: nat): nat {
    LowBits(Shr(f, c), n)
  }

  lemma BitsAtValue(f: nat, c: nat, n: nat)
    ensures BitsAt(f, c, n) == f / Pow2(c) % Pow2(n)
  {
    ShrIsDivision(f, c);
    LowBitsIsMod(Shr(f, c), n);
  }

  /** The word at index k, zero beyond the end. */
  function WordAt(ws: seq<nat>, k: nat): nat {
    if k < |ws| then ws[k] else 0
  }

  lemma WordIsPow2()
    ensures WORD == Pow2(15)
  {
    assert Pow2(5) == 32;
    Pow2Add(5, 5);
    Pow2Add(10, 5);
  }

  lemma {:induction false} FlatBound(ws: seq<nat>)
    requires Words15(ws)
    ensures Flat(ws) < Pow2(15 * |ws|)
  {
    if ws != [] {
      FlatBound(ws[1..]);
      WordIsPow2();
      Pow2Add(15, 15 * (|ws| - 1));
      MulMonotone(WORD, Flat(ws[1..]) + 1, Pow2(15 * (|ws| - 1)));
    }
  }

  /** Dropping k words is dividing by 2^(15 k). */
  lemma {:induction false} FlatDrop(ws: seq<nat>, k: nat)
    requires Words15(ws)
    ensures Flat(ws) / Pow2(15 * k) == if k <= |ws| then Flat(ws[k..]) else 0
  {
    if k == 0 {
      assert ws[0..] == ws;
    } else if ws == [] {
      assert 0 / Pow2(15 * k) == 0;
    } else {
      WordIsPow2();
      SplitAt(Flat(ws), 15, 15 * (k - 1));
      DivModUnique(Flat(ws), WORD, Flat(ws[1..]), ws[0]);
      FlatDrop(ws[1..], k - 1);
      assert k <= |ws| ==> ws[1..][k - 1..] == ws[k..];
    }
  }

  lemma LowWord(ws: seq<nat>, n: nat)
    requires Words15(ws) && n == 15
    ensures LowBits(Flat(ws), n) == WordAt(ws, 0)
  {
    WordIsPow2();
    LowBitsIsMod(Flat(ws), n);
    if ws == [] {
      Small(0, Pow2(n));
    } else {
      DivModUnique(Flat(ws), Pow2(n), Flat(ws[1..]), ws[0]);
    }
  }

  /** The 15 bits from a word boundary are that word. */
  lemma WordBits(ws: seq<nat>, k: nat)
    requires Words15(ws)
    ensures BitsAt(Flat(ws), 15 * k, 15) == WordAt(ws, k)
  {
    FlatDrop(ws, k);
    ShrIsDivision(Flat(ws), 15 * k);
    LowWord(if k <= |ws| then ws[k..] else [], 15);
  }

  lemma BitsAtBound(f: nat, c: nat, n: nat)
    ensures BitsAt(f, c, n) < Pow2(n)
  {
    LowBitsIsMod(Shr(f, c), n);
  }

  lemma BitsAtSplit(f: nat, c: nat, a: nat, b: nat)
    ensures BitsAt(f, c, a + b) == BitsAt(f, c, a) + Pow2(a) * BitsAt(f, c + a, b)
  {
    BitsAtValue(f, c, a + b);
    BitsAtValue(f, c, a);
    BitsAtValue(f, c + a, b);
    DivNonNegative(f, Pow2(c));
    SplitAt(f / Pow2(c), a, b);
    SplitAt(f, c, a);
  }

  /** Reading a + b bits gives the low a bits as reading a, and the rest as reading b after them. */
  lemma ReadSplits(f: nat, c: nat, a: nat, b: nat)
    ensures BitsAt(f, c, a + b) % Pow2(a) == BitsAt(f, c, a)
    ensures BitsAt(f, c, a + b) / Pow2(a) == BitsAt(f, c + a, b)
  {
    BitsAtSplit(f, c, a, b);
    BitsAtBound(f, c, a);
    DivModUnique(BitsAt(f, c, a + b), Pow2(a), BitsAt(f, c + a, b), BitsAt(f, c, a));
  }

  lemma BitsAtNarrow(f: nat, c: nat, a: nat, n: nat)
    requires n <= a
    ensures BitsAt(f, c, a) % Pow2(n) == BitsAt(f, c, n)
  {
    LowBitsIsMod(Shr(f, c), a);
    LowBitsIsMod(Shr(f, c), n);
    ModMod(Shr(f, c), a, n);
  }

  /** Beyond the last word there are only zeros. */
  lemma PastEnd(ws: seq<nat>, c: nat, n: nat)
    requires Words15(ws) && 15 * |ws| <= c
    ensures BitsAt(Flat(ws), c, n) == 0
  {
    FlatBound(ws);
    Pow2Monotone(15 * |ws|, c);
    DivModUnique(Flat(ws), Pow2(c), 0, Flat(ws));
    BitsAtValue(Flat(ws), c, n);
    Small(0, Pow2(n));
  }

  /** The bits copied into a 32-bit accumulator after `n` bits have been OR-ed in. */
  function CopiedBits(ws: seq<nat>, c: nat, n: nat): nat {
    BitsAt(Flat(ws), c, Min(n, 32))
  }

  /** Shifting a word right leaves the bits from the cursor to the end of that word. */
  lemma PartialWord(ws: seq<nat>, k: nat, b: nat)
    requires Words15(ws) && b < 15
    ensures Shr(WordAt(ws, k), b) == CopiedBits(ws, 15 * k + b, 15 - b)
  {
    var f := Flat(ws);
    WordBits(ws, k);
    ReadSplits(f, 15 * k, b, 15 - b);
    ShrIsDivision(WordAt(ws, k), b);
  }

  lemma DivNonNegative(a: nat, d: nat)
    requires d > 0
    ensures a / d >= 0
  {
  }

  /** The first `keep` bits of a whole word extend the bits before it. */
  lemma ExtendBits(ws: seq<nat>, c: nat, copied: nat, k: nat, keep: nat)
    requires Words15(ws) && c + copied == 15 * k && keep <= 15
    ensures BitsAt(Flat(ws), c, copied + keep) == BitsAt(Flat(ws), c, copied) + Pow2(copied) * (WordAt(ws, k) % Pow2(keep))
  {
    WordBits(ws, k);
    BitsAtNarrow(Flat(ws), 15 * k, 15, keep);
    BitsAtSplit(Flat(ws), c, copied, keep);
  }

  /** OR-ing the next word above the bits already copied, in 32 bits. */
  lemma NextWord(ws: seq<nat>, c: nat, copied: nat, k: nat, rv: nat)
    requires Words15(ws) && copied < 32 && c + copied == 15 * k
    requires rv == CopiedBits(ws, c, copied)
    ensures Or(rv, Shl32(WordAt(ws, k), copied)) == CopiedBits(ws, c, copied + 15)
  {
    var keep := Min(15, 32 - copied);
    assert Min(copied + 15, 32) == copied + keep;
    NextBits(ws, c, copied, k, keep, rv);
    ShlKeeps(WordAt(ws, k), copied, keep);
  }

  lemma NextBits(ws: seq<nat>, c: nat, copied: nat, k: nat, keep: nat, rv: nat)
    requires Words15(ws) && c + copied == 15 * k && keep <= 15
    requires rv == BitsAt(Flat(ws), c, copied)
    ensures Or(rv, WordAt(ws, k) % Pow2(keep) * Pow2(copied)) == BitsAt(Flat(ws), c, copied + keep)
  {
    ExtendBits(ws, c, copied, k, keep);
    BitsAtBound(Flat(ws), c, copied);
    OrShifted(rv, WordAt(ws, k) % Pow2(keep), copied);
  }

  lemma OrShifted(a: nat, m: nat, k: nat)
    requires a < Pow2(k)
    ensures Or(a, m * Pow2(k)) == a + Pow2(k) * m
  {
    OrDisjoint(a, m, k);
  }

  /** A 15-bit word shifted left in 32 bits keeps the bits that fit. */
  lemma ShlKeeps(w: nat, k: nat, keep: nat)
    requires w < WORD && k < 32 && keep == Min(15, 32 - k)
    ensures Shl32(w, k) == w % Pow2(keep) * Pow2(k)
  {
    WordIsPow2();
    if keep == 15 { ShlFits(w, k); } else { ShlCut(w, k, keep); }
  }

  lemma ShlFits(w: nat, k: nat)
    requires w < Pow2(15) && k <= 17
    ensures Shl32(w, k) == w % Pow2(15) * Pow2(k)
  {
    Small(w, Pow2(15));
    ProductBound(w, 15, k, 32);
    U32IsPow2();
    ShlIsProduct(w, k);
    Small(Shl(w, k), U32);
  }

  lemma ProductBound(w: nat, a: nat, k: nat, n: nat)
    requires w < Pow2(a) && a + k <= n
    ensures w * Pow2(k) < Pow2(n)
  {
    Pow2Add(k, a);
    MulMonotone(Pow2(k), w, Pow2(a));
    Pow2Monotone(k + a, n);
  }

  lemma Small(x: nat, d: nat)
    requires x < d
    ensures x % d == x
  {
    DivModUnique(x, d, 0, x);
  }

  lemma ShlCut(w: nat, k: nat, keep: nat)
    requires keep + k == 32
    ensures Shl32(w, k) == w % Pow2(keep) * Pow2(k)
  {
    U32IsPow2();
    Pow2Add(keep, k);
    ShlIsProduct(w, k);
    CutProduct(w, Pow2(keep), Pow2(k), U32);
  }

  lemma CutProduct(w: nat, a: nat, k: nat, u: nat)
    requires a > 0 && k > 0 && u == a * k
    ensures u > 0 && w * k % u == w % a * k
  {
    var hi, lo := w / a, w % a;
    Distribute(w, a, hi, lo, k);
    MulMonotone(k, lo, a);
    DivModUnique(w * k, u, hi, lo * k);
  }

  lemma Distribute(w: int, a: int, hi: int, lo: int, k: int)
    requires w == a * hi + lo
    ensures w * k == (a * k) * hi + lo * k
  {
    assert (a * hi) * k == (a * k) * hi;
  }

  /** The same without a width limit. */
  lemma NextWordUnbounded(ws: seq<nat>, c: nat, copied: nat, k: nat, rv: nat)
    requires Words15(ws) && c + copied == 15 * k
    requires rv == BitsAt(Flat(ws), c, copied)
    ensures Or(rv, Shl(WordAt(ws, k), copied)) == BitsAt(Flat(ws), c, copied + 15)
  {
    ExtendBits(ws, c, copied, k, 15);
    WordIsPow2();
    Small(WordAt(ws, k), WORD);
    ShlIsProduct(WordAt(ws, k), copied);
    BitsAtBound(Flat(ws), c, copied);
    OrShifted(rv, WordAt(ws, k), copied);
  }
}
