/** Which received frames are dispatched: those whose first word is their checksum. */
module FrameCheck {
  import opened Bits
  import opened BitCodec
  import opened BitBuffer
  import opened Crc16

  /** The first word of an unpacked frame is the checksum of the rest. */
  predicate Intact(frame: seq<byte>)
    requires |frame| >= 2
  {
    Binary(WordsOf(frame)[0], 15) == Carried(Checksum(BitsOf(frame[2..])))
  }

  /** Reads the sent checksum and compares it with the computed one. */
  method HandleFrame(buf: Buffer) returns (dispatch: bool)
    requires buf.Readable() && buf.Cursor() == 0 && buf.bufferLen >= 2
    modifies buf`wordPos, buf`bitPos
    ensures buf.Readable() && buf.Cursor() == 15
    ensures dispatch == Intact(buf.Bytes())
  {
    ghost var ws := buf.Words();
    var readCrc := buf.ReadBits(15);
    FirstWord(ws);
    var calcCrc := CalcCrc(buf);
    dispatch := Binary(readCrc, 15) == calcCrc;
  }

  lemma FirstWord(ws: seq<nat>)
    requires Words15(ws) && ws != []
    ensures BitsAt(Flat(ws), 0, 15) == ws[0]
  {
    WordBits(ws, 0);
  }

  // ---- corrupted frames --------------------------------------------------------------

  /** A frame whose checksum word alone changed is not dispatched. */
  lemma ChangedChecksumCaught(f: seq<byte>, g: seq<byte>)
    requires 2 <= |f| == |g| && Words15(WordsOf(f)) && Words15(WordsOf(g))
    requires Intact(f) && f[2..] == g[2..] && WordsOf(f)[0] != WordsOf(g)[0]
    ensures !Intact(g)
  {
    var a, b := WordsOf(f)[0], WordsOf(g)[0];
    assert Word15(a) && Word15(b);
    WordIsPow2();
    if Intact(g) {
      BinaryInjective(a, b, 15);
    }
  }

  /** The checksum of a frame, cut around two adjacent bytes. */
  lemma CutAround(f: seq<byte>, i: nat)
    requires 2 <= i && i + 2 <= |f|
    ensures BitsOf(f[2..]) == BitsOf(f[2..i]) + BitsOf(f[i..i + 2]) + BitsOf(f[i + 2..])
  {
    var tail := f[2..];
    Crc16.Split(tail, i - 2);
    assert tail[..i - 2] == f[2..i] && tail[i - 2..i] == f[i..i + 2] && tail[i..] == f[i + 2..];
  }

  /** Equal outside the two bytes from `i` on. */
  predicate SameAround(f: seq<byte>, g: seq<byte>, i: nat) {
    |f| == |g| && i + 2 <= |f| && f[..i] == g[..i] && f[i + 2..] == g[i + 2..]
  }

  lemma AroundParts(f: seq<byte>, g: seq<byte>, i: nat)
    requires 2 <= i && SameAround(f, g, i)
    ensures f[2..i] == g[2..i] && WordsOf(f)[0] == WordsOf(g)[0]
    ensures f != g ==> BitsOf(f[i..i + 2]) != BitsOf(g[i..i + 2])
  {
    assert f[2..i] == f[..i][2..] && g[2..i] == g[..i][2..];
    assert f[0] == f[..i][0] && g[0] == g[..i][0] && f[1] == f[..i][1] && g[1] == g[..i][1];
    if f != g {
      WindowDiffers(f, g, i);
    }
  }

  /** The one pattern the check misses in the two bytes from `i` on, in a frame of `n` bytes. */
  function MissedAt(n: nat, i: nat): (p: seq<bool>)
    requires i + 2 <= n
    ensures |p| == 16
  {
    Missed(16 + 8 * (n - i - 2))
  }

  lemma SameTailChecksum(f: seq<byte>, g: seq<byte>, i: nat)
    requires 2 <= i && SameAround(f, g, i) && f != g
    ensures Carried(Checksum(BitsOf(f[2..]))) == Carried(Checksum(BitsOf(g[2..])))
       <==> Xor(BitsOf(f[i..i + 2]), BitsOf(g[i..i + 2])) == MissedAt(|f|, i)
  {
    AroundParts(f, g, i);
    CutAround(f, i);
    CutAround(g, i);
    TailWindow(BitsOf(f[2..]), BitsOf(g[2..]), BitsOf(f[2..i]), BitsOf(f[i..i + 2]), BitsOf(g[i..i + 2]), BitsOf(f[i + 2..]), |f|, i);
  }

  lemma TailWindow(s: seq<bool>, t: seq<bool>, before: seq<bool>, a: seq<bool>, b: seq<bool>, after: seq<bool>, n: nat, i: nat)
    requires |a| == |b| == 16 && a != b && i + 2 <= n && |after| == 8 * (n - i - 2)
    requires s == before + a + after && t == before + b + after
    ensures Carried(Checksum(s)) == Carried(Checksum(t)) <==> Xor(a, b) == MissedAt(n, i)
  {
    FullWindowMissed(before, a, b, after, 16 + |after|);
  }

  lemma PassesIfSameChecksum(f: seq<byte>, g: seq<byte>)
    requires 2 <= |f| == |g| && Intact(f) && WordsOf(f)[0] == WordsOf(g)[0]
    ensures Intact(g) <==> Carried(Checksum(BitsOf(f[2..]))) == Carried(Checksum(BitsOf(g[2..])))
  {
  }

  lemma SameFirstWord(f: seq<byte>, g: seq<byte>, i: nat)
    requires 2 <= i && SameAround(f, g, i)
    ensures WordsOf(f)[0] == WordsOf(g)[0]
  {
    AroundParts(f, g, i);
  }

  /** An intact frame with two adjacent bytes changed passes exactly if they
      changed by the one pattern missed at their place. */
  lemma ChangedBytesPass(f: seq<byte>, g: seq<byte>, i: nat)
    requires 2 <= i && SameAround(f, g, i) && f != g && Intact(f)
    ensures Intact(g) <==> Xor(BitsOf(f[i..i + 2]), BitsOf(g[i..i + 2])) == MissedAt(|f|, i)
  {
    SameFirstWord(f, g, i);
    PassesIfSameChecksum(f, g);
    SameTailChecksum(f, g, i);
  }

  /** Of all other contents of two adjacent bytes, at most one passes for an intact frame. */
  lemma AtMostOnePasses(f: seq<byte>, g: seq<byte>, h: seq<byte>, i: nat)
    requires 2 <= i && SameAround(f, g, i) && SameAround(f, h, i)
    requires f != g && g != h && f != h && Intact(f)
    ensures !(Intact(g) && Intact(h))
  {
    ChangedBytesPass(f, g, i);
    ChangedBytesPass(f, h, i);
    AroundParts(g, h, i);
    var a, b, c := BitsOf(f[i..i + 2]), BitsOf(g[i..i + 2]), BitsOf(h[i..i + 2]);
    var k :| 0 <= k < 16 && b[k] != c[k];
    assert Xor(a, b)[k] != Xor(a, c)[k];
  }

  /** The byte with the given bits, most significant first. */
  function ByteFrom(bits: seq<bool>): (b: byte)
    requires |bits| == 8
  {
    NumberBound(bits, 8);
    Number(bits)
  }

  function Number(bits: seq<bool>): nat {
    if bits == [] then 0 else 2 * Number(bits[..|bits| - 1]) + if bits[|bits| - 1] then 1 else 0
  }

  lemma {:induction false} NumberBound(bits: seq<bool>, n: nat)
    requires |bits| == n
    ensures Number(bits) < Pow2(n) && (n == 8 ==> Number(bits) < 256) && Binary(Number(bits), n) == bits
    decreases n
  {
    if n > 0 {
      NumberBound(bits[..n - 1], n - 1);
      assert bits == bits[..n - 1] + [bits[n - 1]];
    }
    EightBits(n);
  }

  lemma EightBits(n: nat)
    ensures n == 8 ==> Pow2(n) == 256
  {
    assert Pow2(8) == 256;
  }

  lemma TwoBytes(bits: seq<bool>)
    requires |bits| == 16
    ensures BitsOf([ByteFrom(bits[..8]), ByteFrom(bits[8..])]) == bits
  {
    NumberBound(bits[..8], 8);
    NumberBound(bits[8..], 8);
    PairBits(ByteFrom(bits[..8]), ByteFrom(bits[8..]));
    assert bits == bits[..8] + bits[8..];
  }

  lemma PairBits(hi: byte, lo: byte)
    ensures BitsOf([hi, lo]) == ByteBits(hi) + ByteBits(lo)
  {
    BitsOfSnoc([], hi);
    BitsOfSnoc([hi], lo);
    assert [] + [hi] == [hi] && [hi] + [lo] == [hi, lo];
  }

  lemma MissedIsADifference(n: nat)
    ensures Missed(n) != Zeros()
  {
    MissedEndsOnTop(n);
    ZerosStay(n);
    assert Top()[0] && !Zeros()[0];
  }

  /** Where the top bit of a word lies in the sixteen bits from byte `i` on: in the
      second byte of a word that starts there, in the first byte otherwise. */
  function WordTop(i: nat): nat {
    if i % 2 == 0 then 8 else 0
  }

  /** Flipping a window by the pattern missed at its place. */
  function Flipped(f: seq<byte>, i: nat): (g: seq<byte>)
    requires i + 2 <= |f|
    ensures SameAround(f, g, i)
  {
    var b := Xor(BitsOf(f[i..i + 2]), MissedAt(|f|, i));
    var g := f[..i] + [ByteFrom(b[..8]), ByteFrom(b[8..])] + f[i + 2..];
    assert g[..i] == f[..i] && g[i + 2..] == f[i + 2..];
    g
  }

  lemma FlippedBits(f: seq<byte>, i: nat)
    requires i + 2 <= |f|
    ensures BitsOf(Flipped(f, i)[i..i + 2]) == Xor(BitsOf(f[i..i + 2]), MissedAt(|f|, i))
    ensures Flipped(f, i) != f
  {
    var a, m := BitsOf(f[i..i + 2]), MissedAt(|f|, i);
    var b := Xor(a, m);
    var g := Flipped(f, i);
    TwoBytes(b);
    assert g[i..i + 2] == [ByteFrom(b[..8]), ByteFrom(b[8..])];
    MissedIsADifference(16 + 8 * (|f| - i - 2));
    var k :| 0 <= k < 16 && m[k] != Zeros()[k];
    assert a[k] != b[k];
  }

  lemma FlippedPasses(f: seq<byte>, i: nat)
    requires 2 <= i && i + 2 <= |f| && Intact(f)
    ensures Intact(Flipped(f, i))
  {
    var a, m := BitsOf(f[i..i + 2]), MissedAt(|f|, i);
    FlippedBits(f, i);
    assert Xor(a, Xor(a, m)) == m;
    ChangedBytesPass(f, Flipped(f, i), i);
  }

  /** Only the flipped frame passes. */
  lemma OnlyFlippedPasses(f: seq<byte>, g: seq<byte>, i: nat)
    requires 2 <= i && SameAround(f, g, i) && f != g && Intact(f) && Intact(g)
    ensures g == Flipped(f, i)
  {
    var h := Flipped(f, i);
    FlippedPasses(f, i);
    FlippedBits(f, i);
    if g != h {
      AtMostOnePasses(f, g, h, i);
    }
  }

  /** The top bit of a word, in its second byte. */
  lemma TopBitOfByte(b: byte)
    ensures ByteBits(b)[0] <==> b >= 128
  {
    FirstBit(b, 7);
    assert Pow2(7) == 128;
  }

  lemma {:induction false} FirstBit(v: nat, n: nat)
    requires v < 2 * Pow2(n)
    ensures Binary(v, n + 1)[0] <==> v >= Pow2(n)
    decreases n
  {
    if n > 0 { FirstBit(v / 2, n - 1); }
  }

  /** Words of 15 bits: no second byte has its top bit. */
  lemma WordsBySecondBytes(f: seq<byte>)
    ensures Words15(WordsOf(f)) <==> forall j :: 0 <= j < |f| && j % 2 == 1 ==> f[j] < 128
  {
    var ws := WordsOf(f);
    if forall j :: 0 <= j < |f| && j % 2 == 1 ==> f[j] < 128 {
      forall k | 0 <= k < |ws| ensures Word15(ws[k]) {
        assert (2 * k + 1) % 2 == 1;
      }
    } else {
      var j :| 0 <= j < |f| && j % 2 == 1 && f[j] >= 128;
      var k := j / 2;
      assert j == 2 * k + 1 && !Word15(ws[k]);
    }
  }

  lemma WindowBits(f: seq<byte>, i: nat)
    requires i + 2 <= |f|
    ensures BitsOf(f[i..i + 2])[0] == (f[i] >= 128) && BitsOf(f[i..i + 2])[8] == (f[i + 1] >= 128)
  {
    assert f[i..i + 2] == [f[i], f[i + 1]];
    PairBits(f[i], f[i + 1]);
    TopBitOfByte(f[i]);
    TopBitOfByte(f[i + 1]);
  }

  /** The flipped frame has words of 15 bits exactly if the pattern leaves the word's top bit alone. */
  lemma FlippedWords(f: seq<byte>, i: nat)
    requires i + 2 <= |f| && Words15(WordsOf(f))
    ensures Words15(WordsOf(Flipped(f, i))) <==> !MissedAt(|f|, i)[WordTop(i)]
  {
    var g, j := Flipped(f, i), if i % 2 == 0 then i + 1 else i;
    WordsBySecondBytes(f);
    WordsBySecondBytes(g);
    OnlyWordTop(f, g, i, j);
    FlippedTop(f, i, j);
  }

  lemma FlippedTop(f: seq<byte>, i: nat, j: nat)
    requires i + 2 <= |f| && j == (if i % 2 == 0 then i + 1 else i) && f[j] < 128
    ensures Flipped(f, i)[j] >= 128 <==> MissedAt(|f|, i)[WordTop(i)]
  {
    FlippedBits(f, i);
    WindowTopBit(f, i, j);
    WindowTopBit(Flipped(f, i), i, j);
  }

  lemma WindowTopBit(f: seq<byte>, i: nat, j: nat)
    requires i + 2 <= |f| && j == (if i % 2 == 0 then i + 1 else i)
    ensures BitsOf(f[i..i + 2])[WordTop(i)] == (f[j] >= 128)
  {
    WindowBits(f, i);
  }

  lemma OnlyWordTop(f: seq<byte>, g: seq<byte>, i: nat, j: nat)
    requires SameAround(f, g, i) && j == (if i % 2 == 0 then i + 1 else i)
    requires forall k :: 0 <= k < |f| && k % 2 == 1 ==> f[k] < 128
    ensures (forall k :: 0 <= k < |g| && k % 2 == 1 ==> g[k] < 128) <==> g[j] < 128
  {
    if g[j] < 128 {
      forall k | 0 <= k < |g| && k % 2 == 1 ensures g[k] < 128 {
        if k < i { assert g[k] == g[..i][k] && f[k] == f[..i][k]; }
        if k >= i + 2 { assert g[k] == g[i + 2..][k - i - 2] && f[k] == f[i + 2..][k - i - 2]; }
      }
    }
  }

  /** Where a change of two adjacent bytes of a received frame, whose words have
      fifteen bits, can go unseen: at the places whose missed pattern leaves the
      top bit of the word alone. */
  lemma UnseenChangeExists(f: seq<byte>, i: nat)
    requires 2 <= i && i + 2 <= |f| && Words15(WordsOf(f)) && Intact(f)
    ensures (exists g :: SameAround(f, g, i) && g != f && Words15(WordsOf(g)) && Intact(g))
       <==> !MissedAt(|f|, i)[WordTop(i)]
  {
    FlippedWords(f, i);
    if !MissedAt(|f|, i)[WordTop(i)] {
      FlippedBits(f, i);
      FlippedPasses(f, i);
      assert SameAround(f, Flipped(f, i), i);
    } else {
      forall g | SameAround(f, g, i) && g != f && Intact(g) ensures !Words15(WordsOf(g)) {
        OnlyFlippedPasses(f, g, i);
      }
    }
  }

  /** In the last word of a received frame one change goes unseen. */
  lemma LastWordUnseen(f: seq<byte>, i: nat)
    requires 2 <= i && i + 2 == |f| && i % 2 == 0 && Words15(WordsOf(f)) && Intact(f)
    ensures exists g :: SameAround(f, g, i) && g != f && Words15(WordsOf(g)) && Intact(g)
  {
    UnseenChangeExists(f, i);
    EndPatternTop(|f|, i);
  }

  lemma EndPatternTop(n: nat, i: nat)
    requires i + 2 == n && i % 2 == 0
    ensures !MissedAt(n, i)[WordTop(i)]
  {
    MissedAtEnd(16 + 8 * (n - i - 2), 8);
  }

  /** In the word before it none does. */
  lemma SecondLastWordSeen(f: seq<byte>, i: nat)
    requires 2 <= i && i + 4 == |f| && i % 2 == 0 && Words15(WordsOf(f)) && Intact(f)
    ensures !exists g :: SameAround(f, g, i) && g != f && Words15(WordsOf(g)) && Intact(g)
  {
    UnseenChangeExists(f, i);
    SecondLastTop(|f|, i);
  }

  lemma SecondLastTop(n: nat, i: nat)
    requires i + 4 == n && i % 2 == 0
    ensures MissedAt(n, i)[WordTop(i)]
  {
    SecondLastPattern(16 + 8 * (n - i - 2));
  }

  lemma SecondLastPattern(n: nat)
    requires n == 32
    ensures Missed(n)[8]
  {
    MissedBit(n, 8);
    DroppedIs(n - 9);
    DroppedIs(n - 5);
    SomeDrops(n - 9, n - 5);
  }

  lemma SomeDrops(a: nat, b: nat)
    requires a == 23 && b == 27
    ensures !DropsOut(a) && DropsOut(b)
  {
    assert !DropsOut(a - 16) && !DropsOut(a - 12) && DropsOut(b - 12) && !DropsOut(b - 16);
    assert !DropsOut(a - 21) && !DropsOut(a - 17) && !DropsOut(a - 10);
    assert !DropsOut(a - 5);
    assert !DropsOut(b - 21) && !DropsOut(b - 17) && !DropsOut(b - 26) && !DropsOut(b - 22) && !DropsOut(b - 15);
    assert !DropsOut(b - 10);
    assert !DropsOut(b - 5);
  }

  lemma ChangedEnd(f: seq<byte>, g: seq<byte>, i: nat)
    requires 2 <= i && i + 2 == |f| && SameAround(f, g, i) && f != g && Intact(f)
    ensures Intact(g) <==> DifferByPattern(BitsOf(f[i..i + 2]), BitsOf(g[i..i + 2]))
  {
    ChangedBytesPass(f, g, i);
    EndPattern(BitsOf(f[i..i + 2]), BitsOf(g[i..i + 2]), |f|, i);
  }

  lemma EndPattern(a: seq<bool>, b: seq<bool>, n: nat, i: nat)
    requires |a| == |b| == 16 && i + 2 == n
    ensures Xor(a, b) == MissedAt(n, i) <==> DifferByPattern(a, b)
  {
    MissedIsPattern(a, b, 16 + 8 * (n - i - 2));
  }

  /** A frame whose last two bytes changed passes exactly if they differ by the one missed pattern. */
  lemma ChangedEndPasses(f: seq<byte>, g: seq<byte>)
    requires 4 <= |f| && SameAround(f, g, |f| - 2) && f != g && Intact(f)
    ensures Intact(g) <==> DifferByPattern(BitsOf(f[|f| - 2..]), BitsOf(g[|f| - 2..]))
  {
    var i := |f| - 2;
    ChangedEnd(f, g, i);
    assert i + 2 == |f| == |g|;
  }
}
