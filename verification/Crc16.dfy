/** The frame checksum, byte at a time, against long division of bit strings. */
module Crc16 {
  import opened BitCodec
  import opened Bits
  import opened BitBuffer
  import opened Framing

  /** Sixteen bits, most significant first. */
  predicate Reg(r: seq<bool>) { |r| == 16 }

  /** The generator x^16 + x^12 + x^5 + 1 below its leading term. */
  predicate Generator(i: nat) {
    i == 3 || i == 10 || i == 15
  }

  /** The last `n` binary digits of a number, most significant first. */
  function Binary(v: nat, n: nat): (r: seq<bool>)
    ensures |r| == n
  {
    if n == 0 then [] else Binary(v / 2, n - 1) + [v % 2 == 1]
  }

  function ByteBits(b: byte): (r: seq<bool>)
    ensures |r| == 8
  {
    Binary(b, 8)
  }

  function BitsOf(data: seq<byte>): (r: seq<bool>)
    ensures |r| == 8 * |data|
  {
    if data == [] then [] else BitsOf(data[..|data| - 1]) + ByteBits(data[|data| - 1])
  }

  // ---- long division --------------------------------------------------------

  /** Adds (exclusive or) a 16-bit pattern to the front of a bit string. */
  function AddFront(p: seq<bool>, s: seq<bool>): (r: seq<bool>)
    requires Reg(p) && |s| >= 16
    ensures |r| == |s|
    ensures forall i :: 0 <= i < |s| ==> r[i] == if i < 16 then s[i] != p[i] else s[i]
  {
    seq(|s|, i requires 0 <= i < |s| => if i < 16 then s[i] != p[i] else s[i])
  }

  function GeneratorBits(): (g: seq<bool>)
    ensures Reg(g) && forall i :: 0 <= i < 16 ==> g[i] == Generator(i)
  {
    seq(16, i requires 0 <= i => Generator(i))
  }

  /** Schoolbook division of a bit string by the generator: cancel the leading
      bit if it is set, drop it, and go on until sixteen bits remain. */
  function Remainder(s: seq<bool>): (r: seq<bool>)
    requires |s| >= 16
    ensures Reg(r)
    decreases |s|
  {
    if |s| == 16 then s
    else Remainder(if s[0] then AddFront(GeneratorBits(), s[1..]) else s[1..])
  }

  function Ones(): (r: seq<bool>)
    ensures Reg(r) && forall i :: 0 <= i < 16 ==> r[i]
  {
    seq(16, _ => true)
  }

  function Zeros(): (r: seq<bool>)
    ensures Reg(r) && forall i :: 0 <= i < 16 ==> !r[i]
  {
    seq(16, _ => false)
  }

  /** The checksum as a remainder: the message followed by sixteen zeros, its
      first sixteen bits inverted, divided by the generator. */
  function Checksum(message: seq<bool>): (r: seq<bool>)
    ensures Reg(r)
  {
    Remainder(AddFront(Ones(), message + Zeros()))
  }

  // ---- the shift register ------------------------------------------------------

  predicate Feedback(r: seq<bool>, b: bool)
    requires Reg(r)
  {
    r[0] != b
  }

  /** One bit into the register. */
  function StepReg(r: seq<bool>, b: bool): (t: seq<bool>)
    requires Reg(r)
    ensures Reg(t)
    ensures forall i :: 0 <= i < 16 ==> t[i] == ((i < 15 && r[i + 1]) != (Feedback(r, b) && Generator(i)))
  {
    seq(16, i requires 0 <= i < 16 => (i < 15 && r[i + 1]) != (Feedback(r, b) && Generator(i)))
  }

  function RunReg(r: seq<bool>, bits: seq<bool>): (t: seq<bool>)
    requires Reg(r)
    ensures Reg(t)
    decreases |bits|
  {
    if bits == [] then r else RunReg(StepReg(r, bits[0]), bits[1..])
  }

  /** Shifting a message through the register is dividing it with the register added in front. */
  lemma {:induction false} RegisterDivides(r: seq<bool>, bits: seq<bool>)
    requires Reg(r)
    ensures RunReg(r, bits) == Remainder(AddFront(r, bits + Zeros()))
    decreases |bits|
  {
    var s := AddFront(r, bits + Zeros());
    if bits == [] {
      assert s == r;
    } else {
      var t := StepReg(r, bits[0]);
      RegisterDivides(t, bits[1..]);
      assert (bits + Zeros())[1..] == bits[1..] + Zeros();
      DivisionStep(r, bits[0], bits[1..] + Zeros());
      assert bits + Zeros() == [bits[0]] + (bits[1..] + Zeros());
    }
  }

  /** One division step is one register step. */
  lemma DivisionStep(r: seq<bool>, b: bool, rest: seq<bool>)
    requires Reg(r) && |rest| >= 16
    ensures Remainder(AddFront(r, [b] + rest)) == Remainder(AddFront(StepReg(r, b), rest))
  {
    var s := AddFront(r, [b] + rest);
    var next := if s[0] then AddFront(GeneratorBits(), s[1..]) else s[1..];
    assert next == AddFront(StepReg(r, b), rest);
  }

  lemma {:induction false} RunAppend(r: seq<bool>, a: seq<bool>, b: seq<bool>)
    requires Reg(r)
    ensures RunReg(r, a + b) == RunReg(RunReg(r, a), b)
    decreases |a|
  {
    if a == [] {
      assert a + b == b;
    } else {
      assert (a + b)[1..] == a[1..] + b;
      RunAppend(StepReg(r, a[0]), a[1..], b);
    }
  }

  // ---- one byte at a time ---------------------------------------------------------

  // An unsigned integer of a fixed width is the sequence of its bits, most
  // significant first, with the C operators on it.

  function Xor(a: seq<bool>, b: seq<bool>): (r: seq<bool>)
    requires |a| == |b|
    ensures |r| == |a| && forall i :: 0 <= i < |r| ==> r[i] == (a[i] != b[i])
  {
    seq(|a|, i requires 0 <= i < |a| => a[i] != b[i])
  }

  function Shl(a: seq<bool>, n: nat): (r: seq<bool>)
    ensures |r| == |a| && forall i :: 0 <= i < |r| ==> r[i] == (i + n < |a| && a[i + n])
  {
    seq(|a|, i requires 0 <= i < |a| => i + n < |a| && a[i + n])
  }

  function Shr(a: seq<bool>, n: nat): (r: seq<bool>)
    ensures |r| == |a| && forall i :: 0 <= i < |r| ==> r[i] == (i >= n && a[i - n])
  {
    seq(|a|, i requires 0 <= i < |a| => i >= n && a[i - n])
  }

  /** Conversion to an integer of another width: high bits are dropped or filled with zeros. */
  function Resize(a: seq<bool>, width: nat): (r: seq<bool>)
    ensures |r| == width
    ensures forall i :: 0 <= i < width ==> r[i] == (i + |a| >= width && a[i + |a| - width])
  {
    seq(width, i requires 0 <= i < width => i + |a| >= width && a[i + |a| - width])
  }

  /** The loop body of the native checksum. */
  function ByteStep(c: seq<bool>, b: seq<bool>): (r: seq<bool>)
    requires Reg(c) && |b| == 8
    ensures Reg(r)
  {
    var x := Xor(Resize(Shr(c, 8), 8), b);
    var y := Resize(Xor(x, Shr(x, 4)), 16);
    Xor(Xor(Xor(Shl(c, 8), Shl(y, 12)), Shl(y, 5)), y)
  }

  /** The loop body of the Python checksum: wide integers, masked at the end. */
  function PyByteStep(c: seq<bool>, b: seq<bool>): (r: seq<bool>)
    requires Reg(c) && |b| == 8
    ensures Reg(r)
  {
    var crc := Resize(c, 64);
    var x := Resize(Resize(Xor(Shr(crc, 8), Resize(b, 64)), 8), 64);
    var y := Xor(x, Shr(x, 4));
    Resize(Xor(Xor(Xor(Shl(crc, 8), Shl(y, 12)), Shl(y, 5)), y), 16)
  }

  /** The feedback of step j. */
  function FeedbackAt(r: seq<bool>, bits: seq<bool>, j: nat): bool
    requires Reg(r) && j < |bits|
  {
    Feedback(RunReg(r, bits[..j]), bits[j])
  }

  /** Whether step j, if it was one of the first k, fed back. */
  function Fed(r: seq<bool>, bits: seq<bool>, k: nat, j: int): bool
    requires Reg(r) && k <= |bits|
  {
    0 <= j < k && FeedbackAt(r, bits, j)
  }

  /** After k steps a register bit is the old bit that was shifted there, plus the
      feedbacks that entered at the three generator positions and were shifted there. */
  lemma {:induction false} RegisterAfter(r: seq<bool>, bits: seq<bool>, k: nat, i: nat)
    requires Reg(r) && k <= |bits| && i < 16
    ensures RunReg(r, bits[..k])[i]
         == ((((i + k < 16 && r[i + k]) != Fed(r, bits, k, i + k - 4)) != Fed(r, bits, k, i + k - 11)) != Fed(r, bits, k, i + k - 16))
    decreases k
  {
    if k > 0 {
      var t := RunReg(r, bits[..k - 1]);
      RunAppend(r, bits[..k - 1], [bits[k - 1]]);
      assert bits[..k] == bits[..k - 1] + [bits[k - 1]];
      OneStep(t, bits[k - 1]);
      if i < 15 {
        RegisterAfter(r, bits, k - 1, i + 1);
      }
    }
  }

  lemma OneStep(r: seq<bool>, b: bool)
    requires Reg(r)
    ensures RunReg(r, [b]) == StepReg(r, b)
  {
    assert [b][1..] == [];
  }

  /** The feedback bits of a byte are the folded byte the native loop computes. */
  lemma FoldedByte(c: seq<bool>, b: seq<bool>, k: nat)
    requires Reg(c) && |b| == 8 && k < 8
    ensures var x := Xor(Resize(Shr(c, 8), 8), b);
            FeedbackAt(c, b, k) == Xor(x, Shr(x, 4))[k]
  {
    RegisterAfter(c, b, k, 0);
    if k >= 4 { RegisterAfter(c, b, k - 4, 0); }
  }

  /** The byte step is eight register steps. */
  lemma ByteStepIsEightSteps(c: seq<bool>, b: seq<bool>)
    requires Reg(c) && |b| == 8
    ensures ByteStep(c, b) == RunReg(c, b)
  {
    assert b[..8] == b;
    var x := Xor(Resize(Shr(c, 8), 8), b);
    var y := Xor(x, Shr(x, 4));
    forall i | 0 <= i < 16 ensures ByteStep(c, b)[i] == RunReg(c, b)[i] {
      RegisterAfter(c, b, 8, i);
      if 0 <= i + 4 < 8 { FoldedByte(c, b, i + 4); }
      if 0 <= i - 3 < 8 { FoldedByte(c, b, i - 3); }
      if 0 <= i - 8 < 8 { FoldedByte(c, b, i - 8); }
    }
  }

  /** The wide intermediate values of the Python loop carry no bits above the native ones. */
  lemma PyFold(c: seq<bool>, b: seq<bool>)
    requires Reg(c) && |b| == 8
    ensures var x := Resize(Resize(Xor(Shr(Resize(c, 64), 8), Resize(b, 64)), 8), 64);
            var x8 := Xor(Resize(Shr(c, 8), 8), b);
            Xor(x, Shr(x, 4)) == Resize(Xor(x8, Shr(x8, 4)), 64)
  {
    var x8 := Xor(Resize(Shr(c, 8), 8), b);
    var xx := Resize(Xor(Shr(Resize(c, 64), 8), Resize(b, 64)), 8);
    assert xx == x8;
  }

  lemma PyByteStepAgrees(c: seq<bool>, b: seq<bool>)
    requires Reg(c) && |b| == 8
    ensures PyByteStep(c, b) == ByteStep(c, b)
  {
    PyFold(c, b);
    var x8 := Xor(Resize(Shr(c, 8), 8), b);
    PyCombine(c, Xor(x8, Shr(x8, 4)));
  }

  lemma PyCombine(c: seq<bool>, y: seq<bool>)
    requires Reg(c) && |y| == 8
    ensures var w := Resize(y, 64);
            var n := Resize(y, 16);
            Resize(Xor(Xor(Xor(Shl(Resize(c, 64), 8), Shl(w, 12)), Shl(w, 5)), w), 16)
            == Xor(Xor(Xor(Shl(c, 8), Shl(n, 12)), Shl(n, 5)), n)
  {
    var w := Resize(y, 64);
    var n := Resize(y, 16);
    var a := Xor(Shl(Resize(c, 64), 8), Shl(w, 12));
    var a' := Xor(Shl(c, 8), Shl(n, 12));
    assert Resize(a, 16) == a';
    var d := Xor(a, Shl(w, 5));
    var d' := Xor(a', Shl(n, 5));
    assert Resize(d, 16) == d';
    assert Resize(Xor(d, w), 16) == Xor(d', n);
  }

  lemma NextByte(data: seq<byte>, k: nat)
    requires k < |data|
    ensures RunReg(Ones(), BitsOf(data[..k + 1])) == ByteStep(RunReg(Ones(), BitsOf(data[..k])), ByteBits(data[k]))
  {
    BitsOfSnoc(data[..k], data[k]);
    assert data[..k + 1] == data[..k] + [data[k]];
    RunAppend(Ones(), BitsOf(data[..k]), ByteBits(data[k]));
    ByteStepIsEightSteps(RunReg(Ones(), BitsOf(data[..k])), ByteBits(data[k]));
  }

  /** The native checksum. */
  method Crc16(data: seq<byte>) returns (crc: seq<bool>)
    ensures crc == Checksum(BitsOf(data))
  {
    crc := Ones();
    var i := 0;
    while i < |data|
      invariant 0 <= i <= |data|
      invariant Reg(crc) && crc == RunReg(Ones(), BitsOf(data[..i]))
    {
      NextByte(data, i);
      crc := ByteStep(crc, ByteBits(data[i]));
      i := i + 1;
    }
    assert data[..i] == data;
    RegisterDivides(Ones(), BitsOf(data));
  }

  /** The Python checksum, from a starting position on. */
  method PyCrc16(data: seq<byte>, start: nat) returns (crc: seq<bool>)
    ensures crc == Checksum(BitsOf(if start <= |data| then data[start..] else []))
  {
    crc := Ones();
    ghost var rest := if start <= |data| then data[start..] else [];
    var i := start;
    while i < |data|
      invariant start <= i && (i <= |data| || i == start)
      invariant Reg(crc) && i - start <= |rest| && crc == RunReg(Ones(), BitsOf(rest[..i - start]))
    {
      assert rest[i - start] == data[i];
      NextByte(rest, i - start);
      PyByteStepAgrees(crc, ByteBits(data[i]));
      crc := PyByteStep(crc, ByteBits(data[i]));
      i := i + 1;
    }
    assert rest[..i - start] == rest;
    RegisterDivides(Ones(), BitsOf(rest));
  }

  lemma BitsOfSnoc(data: seq<byte>, b: byte)
    ensures BitsOf(data + [b]) == BitsOf(data) + ByteBits(b)
  {
    assert (data + [b])[..|data|] == data;
  }

  lemma {:induction false} BitsOfAppend(a: seq<byte>, b: seq<byte>)
    ensures BitsOf(a + b) == BitsOf(a) + BitsOf(b)
    decreases |b|
  {
    if b == [] {
      assert a + b == a;
    } else {
      var m := |b| - 1;
      var front, bits := b[..m], ByteBits(b[m]);
      assert a + b == (a + front) + [b[m]];
      BitsOfSnoc(a + front, b[m]);
      BitsOfAppend(a, front);
      assert (BitsOf(a) + BitsOf(front)) + bits == BitsOf(a) + (BitsOf(front) + bits);
    }
  }

  // ---- what the checksum detects ------------------------------------------------------

  /** The register can be run backwards. */
  lemma StepInjective(r: seq<bool>, q: seq<bool>, b: bool)
    requires Reg(r) && Reg(q) && StepReg(r, b) == StepReg(q, b)
    ensures r == q
  {
    var t, u := StepReg(r, b), StepReg(q, b);
    assert t[15] == Feedback(r, b) && u[15] == Feedback(q, b);
    forall i | 0 <= i < 16 ensures r[i] == q[i] {
      if i > 0 { assert t[i - 1] == u[i - 1]; }
    }
  }

  lemma {:induction false} RunInjective(r: seq<bool>, q: seq<bool>, bits: seq<bool>)
    requires Reg(r) && Reg(q) && RunReg(r, bits) == RunReg(q, bits)
    ensures r == q
    decreases |bits|
  {
    if bits != [] {
      RunInjective(StepReg(r, bits[0]), StepReg(q, bits[0]), bits[1..]);
      StepInjective(r, q, bits[0]);
    }
  }

  // The checksum is linear: differences of messages run through the register on their own.

  function NoBits(n: nat): (r: seq<bool>)
    ensures |r| == n && forall i :: 0 <= i < n ==> !r[i]
  {
    seq(n, _ => false)
  }

  lemma StepLinear(r: seq<bool>, q: seq<bool>, b: bool, c: bool)
    requires Reg(r) && Reg(q)
    ensures Xor(StepReg(r, b), StepReg(q, c)) == StepReg(Xor(r, q), b != c)
  {
  }

  lemma {:induction false} RunLinear(r: seq<bool>, q: seq<bool>, a: seq<bool>, b: seq<bool>)
    requires Reg(r) && Reg(q) && |a| == |b|
    ensures Xor(RunReg(r, a), RunReg(q, b)) == RunReg(Xor(r, q), Xor(a, b))
    decreases |a|
  {
    if a != [] {
      StepLinear(r, q, a[0], b[0]);
      assert Xor(a, b)[1..] == Xor(a[1..], b[1..]);
      RunLinear(StepReg(r, a[0]), StepReg(q, b[0]), a[1..], b[1..]);
    }
  }

  /** The difference of two checksums is that of the messages, run from the zero register. */
  lemma ChecksumLinear(m: seq<bool>, n: seq<bool>)
    requires |m| == |n|
    ensures Xor(Checksum(m), Checksum(n)) == RunReg(Zeros(), Xor(m, n))
  {
    RegisterDivides(Ones(), m);
    RegisterDivides(Ones(), n);
    RunLinear(Ones(), Ones(), m, n);
    assert Xor(Ones(), Ones()) == Zeros();
  }

  lemma {:induction false} ZerosStay(n: nat)
    ensures RunReg(Zeros(), NoBits(n)) == Zeros()
    decreases n
  {
    if n > 0 {
      assert StepReg(Zeros(), false) == Zeros();
      assert NoBits(n)[1..] == NoBits(n - 1);
      ZerosStay(n - 1);
    }
  }

  /** A window of up to sixteen bits as a register. */
  function Padded(w: seq<bool>): (r: seq<bool>)
    requires |w| <= 16
    ensures Reg(r)
  {
    w + NoBits(16 - |w|)
  }

  /** Shifting a window into the zero register is shifting zeros into the window. */
  lemma WindowAsRegister(w: seq<bool>)
    requires |w| <= 16
    ensures RunReg(Zeros(), w) == RunReg(Padded(w), NoBits(|w|))
  {
    RegisterDivides(Zeros(), w);
    RegisterDivides(Padded(w), NoBits(|w|));
    SameDividend(w, Padded(w), NoBits(|w|));
  }

  lemma SameDividend(w: seq<bool>, p: seq<bool>, none: seq<bool>)
    requires |w| <= 16 && p == Padded(w) && none == NoBits(|w|)
    ensures AddFront(Zeros(), w + Zeros()) == AddFront(p, none + Zeros())
  {
    var x, y := AddFront(Zeros(), w + Zeros()), AddFront(p, none + Zeros());
    forall i | 0 <= i < |w| + 16 ensures x[i] == y[i] {
      if i < |w| { assert p[i] == w[i]; }
    }
  }

  /** The difference of the checksums of messages that differ inside one window. */
  lemma WindowDifference(before: seq<bool>, a: seq<bool>, b: seq<bool>, after: seq<bool>)
    requires |a| == |b| <= 16
    ensures Xor(Checksum(before + a + after), Checksum(before + b + after))
         == RunReg(Padded(Xor(a, b)), NoBits(|a| + |after|))
  {
    ChecksumLinear(before + a + after, before + b + after);
    XorAround(before, a, b, after);
    RunWindow(|before|, Xor(a, b), |after|);
  }

  lemma XorAround(before: seq<bool>, a: seq<bool>, b: seq<bool>, after: seq<bool>)
    requires |a| == |b|
    ensures Xor(before + a + after, before + b + after) == NoBits(|before|) + Xor(a, b) + NoBits(|after|)
  {
    var d := NoBits(|before|) + Xor(a, b) + NoBits(|after|);
    var m, n := before + a + after, before + b + after;
    forall i | 0 <= i < |m| ensures Xor(m, n)[i] == d[i] {
      if i >= |before| + |a| {
        assert m[i] == after[i - |before| - |a|] && n[i] == after[i - |before| - |a|];
      }
    }
  }

  lemma RunWindow(m: nat, d: seq<bool>, n: nat)
    requires |d| <= 16
    ensures RunReg(Zeros(), NoBits(m) + d + NoBits(n)) == RunReg(Padded(d), NoBits(|d| + n))
  {
    RunAppend(Zeros(), NoBits(m) + d, NoBits(n));
    RunAppend(Zeros(), NoBits(m), d);
    ZerosStay(m);
    WindowAsRegister(d);
    RunAppend(Padded(d), NoBits(|d|), NoBits(n));
    assert NoBits(|d|) + NoBits(n) == NoBits(|d| + n);
  }

  lemma DifferentWindows(a: seq<bool>, b: seq<bool>, n: nat)
    requires |a| == |b| <= 16 && a != b
    ensures RunReg(Padded(Xor(a, b)), NoBits(n)) != Zeros()
  {
    var d := Padded(Xor(a, b));
    var i :| 0 <= i < |a| && a[i] != b[i];
    assert d[i] && !Zeros()[i];
    ZerosStay(n);
    if RunReg(d, NoBits(n)) == Zeros() {
      RunInjective(d, Zeros(), NoBits(n));
    }
  }

  lemma XorSelf(x: seq<bool>)
    requires Reg(x)
    ensures Xor(x, x) == Zeros()
  {
  }

  /** Two messages of one length that differ only inside a window of sixteen
      bits have different checksums. */
  lemma BurstDetected(before: seq<bool>, a: seq<bool>, b: seq<bool>, after: seq<bool>)
    requires |a| == |b| <= 16 && a != b
    ensures Checksum(before + a + after) != Checksum(before + b + after)
  {
    WindowDifference(before, a, b, after);
    DifferentWindows(a, b, |a| + |after|);
    XorSelf(Checksum(before + a + after));
  }

  lemma {:induction false} BinaryInjective(a: nat, b: nat, n: nat)
    requires a < Pow2(n) && b < Pow2(n) && Binary(a, n) == Binary(b, n)
    ensures a == b
    decreases n
  {
    if n > 0 {
      var s, t := Binary(a, n), Binary(b, n);
      assert s[..n - 1] == Binary(a / 2, n - 1) && t[..n - 1] == Binary(b / 2, n - 1);
      assert s[n - 1] == (a % 2 == 1) && t[n - 1] == (b % 2 == 1);
      BinaryInjective(a / 2, b / 2, n - 1);
    }
  }

  lemma {:induction false} BitsOfInjective(a: seq<byte>, b: seq<byte>)
    requires |a| == |b| && BitsOf(a) == BitsOf(b)
    ensures a == b
    decreases |a|
  {
    if a != [] {
      var m := |a| - 1;
      assert BitsOf(a) == BitsOf(a[..m]) + ByteBits(a[m]);
      assert BitsOf(b) == BitsOf(b[..m]) + ByteBits(b[m]);
      assert BitsOf(a)[..8 * m] == BitsOf(a[..m]) && BitsOf(b)[..8 * m] == BitsOf(b[..m]);
      assert BitsOf(a)[8 * m..] == ByteBits(a[m]) && BitsOf(b)[8 * m..] == ByteBits(b[m]);
      BitsOfInjective(a[..m], b[..m]);
      assert Pow2(8) == 256;
      BinaryInjective(a[m], b[m], 8);
      assert a == a[..m] + [a[m]] && b == b[..m] + [b[m]];
    }
  }

  /** Messages of one length that differ only in two adjacent bytes have different checksums. */
  lemma AdjacentBytesDetected(m: seq<byte>, n: seq<byte>, i: nat)
    requires |m| == |n| && i + 2 <= |m| && m != n
    requires m[..i] == n[..i] && m[i + 2..] == n[i + 2..]
    ensures Checksum(BitsOf(m)) != Checksum(BitsOf(n))
  {
    Split(m, i);
    Split(n, i);
    WindowDiffers(m, n, i);
    BurstDetected(BitsOf(m[..i]), BitsOf(m[i..i + 2]), BitsOf(n[i..i + 2]), BitsOf(m[i + 2..]));
  }

  lemma WindowDiffers(m: seq<byte>, n: seq<byte>, i: nat)
    requires |m| == |n| && i + 2 <= |m| && m != n
    requires m[..i] == n[..i] && m[i + 2..] == n[i + 2..]
    ensures BitsOf(m[i..i + 2]) != BitsOf(n[i..i + 2])
  {
    var a, b := m[i..i + 2], n[i..i + 2];
    assert m == m[..i] + a + m[i + 2..];
    assert n == n[..i] + b + n[i + 2..];
    if BitsOf(a) == BitsOf(b) {
      BitsOfInjective(a, b);
    }
  }

  lemma Split(m: seq<byte>, i: nat)
    requires i + 2 <= |m|
    ensures BitsOf(m) == BitsOf(m[..i]) + BitsOf(m[i..i + 2]) + BitsOf(m[i + 2..])
  {
    SplitInto(m, m[..i], m[i..i + 2], m[i + 2..]);
  }

  lemma SplitInto(m: seq<byte>, a: seq<byte>, b: seq<byte>, c: seq<byte>)
    requires m == (a + b) + c
    ensures BitsOf(m) == BitsOf(a) + BitsOf(b) + BitsOf(c)
  {
    BitsOfAppend(a + b, c);
    BitsOfAppend(a, b);
  }

  // ---- the fifteen bits a frame carries ---------------------------------------------------

  /** The value compared with the one in the frame: the top bit is masked off. */
  function Carried(crc: seq<bool>): (r: seq<bool>)
    requires Reg(crc)
    ensures |r| == 15
  {
    crc[1..]
  }

  /** The native checksum of a frame: of what follows its first word. */
  method CalcCrc(buf: Buffer) returns (crc: seq<bool>)
    requires buf.buffer.Length == MAXBUFFER && 2 <= buf.bufferLen <= MAXBUFFER
    ensures crc == Carried(Checksum(BitsOf(buf.Bytes()[2..])))
  {
    var full := Crc16(buf.buffer[2..buf.bufferLen]);
    assert buf.buffer[2..buf.bufferLen] == buf.Bytes()[2..];
    crc := Carried(full);
  }

  /** The top bit alone, the one difference the carried bits do not show. */
  function Top(): (r: seq<bool>)
    ensures Reg(r) && forall i :: 0 <= i < 16 ==> r[i] == (i == 0)
  {
    seq(16, i => i == 0)
  }

  lemma SameCarried(x: seq<bool>, y: seq<bool>)
    requires Reg(x) && Reg(y)
    ensures Carried(x) == Carried(y) <==> Xor(x, y) == Zeros() || Xor(x, y) == Top()
  {
    var d := Xor(x, y);
    if Carried(x) == Carried(y) {
      forall i | 1 <= i < 16 ensures !d[i] {
        assert x[i] == Carried(x)[i - 1] && y[i] == Carried(y)[i - 1];
      }
      assert d == if d[0] then Top() else Zeros();
    } else {
      var i :| 0 <= i < 15 && Carried(x)[i] != Carried(y)[i];
      assert d[i + 1] && !Zeros()[i + 1] && !Top()[i + 1];
    }
  }

  /** The carried bits miss a difference of two messages exactly if its remainder,
      followed by sixteen zeros, is nothing or the top bit alone. */
  lemma DifferenceMissed(m: seq<bool>, n: seq<bool>)
    requires |m| == |n|
    ensures Carried(Checksum(m)) == Carried(Checksum(n))
       <==> Remainder(Xor(m, n) + Zeros()) == Zeros() || Remainder(Xor(m, n) + Zeros()) == Top()
  {
    ChecksumLinear(m, n);
    SameCarried(Checksum(m), Checksum(n));
    RegisterDivides(Zeros(), Xor(m, n));
    assert AddFront(Zeros(), Xor(m, n) + Zeros()) == Xor(m, n) + Zeros();
  }

  /** The register from which a zero bit leads to `t`. */
  function Back(t: seq<bool>): (r: seq<bool>)
    requires Reg(t)
    ensures Reg(r)
    ensures forall i :: 0 <= i < 16 ==> r[i] == if i == 0 then t[15] else (t[i - 1] != (t[15] && Generator(i - 1)))
  {
    seq(16, i requires 0 <= i < 16 => if i == 0 then t[15] else (t[i - 1] != (t[15] && Generator(i - 1))))
  }

  lemma StepBack(t: seq<bool>)
    requires Reg(t)
    ensures StepReg(Back(t), false) == t
  {
  }

  /** The difference that `n` zero bits turn into the top bit alone. */
  function Missed(n: nat): (r: seq<bool>)
    ensures Reg(r)
  {
    if n == 0 then Top() else Back(Missed(n - 1))
  }

  lemma {:induction false} MissedEndsOnTop(n: nat)
    ensures RunReg(Missed(n), NoBits(n)) == Top()
    decreases n
  {
    if n > 0 {
      StepBack(Missed(n - 1));
      assert NoBits(n)[1..] == NoBits(n - 1);
      MissedEndsOnTop(n - 1);
    }
  }

  /** Wherever a window of up to sixteen bits lies, the carried bits miss a
      difference in it exactly if it is the one pattern of that place. */
  lemma WindowMissed(before: seq<bool>, a: seq<bool>, b: seq<bool>, after: seq<bool>)
    requires |a| == |b| <= 16 && a != b
    ensures Carried(Checksum(before + a + after)) == Carried(Checksum(before + b + after))
       <==> Padded(Xor(a, b)) == Missed(|a| + |after|)
  {
    var d, n := Padded(Xor(a, b)), |a| + |after|;
    WindowDifference(before, a, b, after);
    DifferentWindows(a, b, n);
    SameCarried(Checksum(before + a + after), Checksum(before + b + after));
    MissedEndsOnTop(n);
    if RunReg(d, NoBits(n)) == Top() {
      RunInjective(d, Missed(n), NoBits(n));
    }
  }

  lemma FullWindowMissed(before: seq<bool>, a: seq<bool>, b: seq<bool>, after: seq<bool>, n: nat)
    requires |a| == |b| == 16 && a != b && n == 16 + |after|
    ensures Carried(Checksum(before + a + after)) == Carried(Checksum(before + b + after)) <==> Xor(a, b) == Missed(n)
  {
    WindowMissed(before, a, b, after);
    assert Padded(Xor(a, b)) == Xor(a, b);
  }

  /** Of any three different contents of a sixteen-bit window, two are told apart by the carried bits. */
  lemma AtMostOneCollision(before: seq<bool>, a: seq<bool>, b: seq<bool>, c: seq<bool>, after: seq<bool>)
    requires |a| == |b| == |c| <= 16 && a != b && b != c && a != c
    ensures var x := Carried(Checksum(before + a + after));
            var y := Carried(Checksum(before + b + after));
            var z := Carried(Checksum(before + c + after));
            !(x == y && y == z)
  {
    WindowMissed(before, a, b, after);
    WindowMissed(before, b, c, after);
    var i :| 0 <= i < |a| && a[i] != c[i];
    assert Padded(Xor(a, b))[i] != Padded(Xor(b, c))[i];
  }

  /** The pattern x^16 + x^12 + x^5. */
  predicate Pattern(j: nat) {
    j == 0 || j == 4 || j == 11
  }

  predicate DifferByPattern(a: seq<bool>, b: seq<bool>) {
    |a| == |b| == 16 && forall j :: 0 <= j < 16 ==> (a[j] != b[j] <==> Pattern(j))
  }

  lemma MissedStep(n: nat, i: nat)
    requires n > 0 && i < 16
    ensures Missed(n)[i] == if i == 0 then Missed(n - 1)[15] else (Missed(n - 1)[i - 1] != (Missed(n - 1)[15] && Generator(i - 1)))
  {
  }

  lemma {:induction false} MissedSingleBit(n: nat, i: nat)
    requires n < 16 && i < 16
    ensures Missed(n)[i] == (i == n)
    decreases n
  {
    if n > 0 {
      MissedStep(n, i);
      MissedSingleBit(n - 1, 15);
      if i > 0 { MissedSingleBit(n - 1, i - 1); }
    }
  }

  lemma MissedAtEnd(k: nat, i: nat)
    requires k == 16 && i < 16
    ensures Missed(k)[i] == Pattern(i)
  {
    MissedStep(k, i);
    MissedSingleBit(k - 1, 15);
    if i > 0 { MissedSingleBit(k - 1, i - 1); }
  }

  /** The bit that drops out of the missed pattern at the back. */
  predicate Dropped(n: int) {
    n >= 0 && Missed(n)[15]
  }

  /** A bit of the missed pattern is made of those that dropped out at the back,
      came in at the three places of the pattern, and were shifted there. */
  lemma {:induction false} MissedBit(n: nat, i: nat)
    requires i < 16 && n > i
    ensures Missed(n)[i] == ((Dropped(n - 1 - i) != (i >= 4 && Dropped(n + 3 - i))) != (i >= 11 && Dropped(n + 10 - i)))
    decreases i
  {
    MissedStep(n, i);
    if i > 0 { MissedBit(n - 1, i - 1); }
  }

  /** The same from the bits that dropped out before. */
  predicate DropsOut(n: nat) {
    if n < 16 then n == 15 else ((DropsOut(n - 16) != DropsOut(n - 12)) != DropsOut(n - 5))
  }

  lemma {:induction false} DroppedIs(n: nat)
    ensures Dropped(n) == DropsOut(n)
    decreases n
  {
    if n < 16 {
      MissedSingleBit(n, 15);
    } else {
      MissedBit(n, 15);
      DroppedIs(n - 16);
      DroppedIs(n - 12);
      DroppedIs(n - 5);
    }
  }

  /** In the last sixteen bits of a message the one pattern is x^16 + x^12 + x^5. */
  lemma LastWindowMissed(before: seq<bool>, a: seq<bool>, b: seq<bool>)
    requires |a| == |b| == 16 && a != b
    ensures Carried(Checksum(before + a)) == Carried(Checksum(before + b)) <==> DifferByPattern(a, b)
  {
    assert before + a + [] == before + a && before + b + [] == before + b;
    FullWindowMissed(before, a, b, [], |a|);
    MissedIsPattern(a, b, |a|);
  }

  lemma MissedIsPattern(a: seq<bool>, b: seq<bool>, n: nat)
    requires |a| == |b| == 16 == n
    ensures Xor(a, b) == Missed(n) <==> DifferByPattern(a, b)
  {
    var d, m := Xor(a, b), Missed(n);
    forall i | 0 <= i < 16 ensures m[i] == Pattern(i) && d[i] == (a[i] != b[i]) {
      MissedAtEnd(n, i);
    }
  }
}
