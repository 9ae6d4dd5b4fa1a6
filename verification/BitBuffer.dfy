/** The serial frame buffer of the native decoder: framing, unpacking in place,
    and reading bit fields. */
module BitBuffer {
  import opened Bits
  import opened BitCodec
  import opened Pack15
  import opened Framing
  import opened Sequences

  /** The little-endian words of a byte string. */
  function WordsOf(b: seq<byte>): (ws: seq<nat>)
    ensures |ws| == |b| / 2
  {
    seq(|b| / 2, i requires 0 <= i < |b| / 2 => Pair(b[2 * i], b[2 * i + 1]))
  }

  function UnpackWords(b: seq<byte>): (ws: seq<nat>)
    ensures |ws| == |b| / 2 && Words15(ws)
  {
    seq(|b| / 2, i requires 0 <= i < |b| / 2 => UnpackPair(b[2 * i], b[2 * i + 1]))
  }

  /** The byte string with word `k` replaced. */
  function StoreWord(b: seq<byte>, k: nat, w: nat): (r: seq<byte>)
    requires 2 * k + 1 < |b|
    ensures |r| == |b|
  {
    b[2 * k := w % 256][2 * k + 1 := w / 256 % 256]
  }

  /** The byte string with the first `k` of the given words stored over it. */
  function StoredTo(b: seq<byte>, ws: seq<nat>, k: nat): (r: seq<byte>)
    requires k <= |ws| && 2 * |ws| <= |b|
    ensures |r| == |b|
    ensures forall i :: 2 * k <= i < |b| ==> r[i] == b[i]
  {
    if k == 0 then b else StoreWord(StoredTo(b, ws, k - 1), k - 1, ws[k - 1])
  }

  lemma {:induction false} StoredWords(b: seq<byte>, ws: seq<nat>, k: nat, i: nat)
    requires i < k <= |ws| && 2 * |ws| <= |b| && Words15(ws)
    ensures Pair(StoredTo(b, ws, k)[2 * i], StoredTo(b, ws, k)[2 * i + 1]) == ws[i]
  {
    if i == k - 1 {
      TwoBytes(ws[i]);
    } else {
      StoredWords(b, ws, k - 1, i);
    }
  }

  lemma TwoBytes(w: nat)
    requires w < WORD
    ensures w / 256 % 256 == w / 256 && w % 256 + 256 * (w / 256) == w
  {
  }

  lemma PairsAreWords(b: seq<byte>, ws: seq<nat>, len: nat)
    requires len <= |b| && |ws| == len / 2
    requires forall i :: 0 <= i < |ws| ==> Pair(b[2 * i], b[2 * i + 1]) == ws[i]
    ensures WordsOf(b[..len]) == ws
  {
  }

  /** Storing all the words of a frame makes them its words. */
  lemma StoredFrame(b: seq<byte>, ws: seq<nat>, len: nat)
    requires len <= |b| && |ws| == len / 2 && Words15(ws)
    ensures WordsOf(StoredTo(b, ws, |ws|)[..len]) == ws
  {
    var u := StoredTo(b, ws, |ws|);
    forall i | 0 <= i < |ws| ensures Pair(u[2 * i], u[2 * i + 1]) == ws[i] {
      StoredWords(b, ws, |ws|, i);
    }
    PairsAreWords(u, ws, len);
  }

  /** Word `i` is the unpacked pair of bytes at its place. */
  predicate WordFrom(ws: seq<nat>, b: seq<byte>, i: nat)
    requires i < |ws|
  {
    2 * i + 1 < |b| && ws[i] == UnpackPair(b[2 * i], b[2 * i + 1])
  }

  predicate UnpackedFrom(ws: seq<nat>, b: seq<byte>) {
    2 * |ws| <= |b| && forall i :: 0 <= i < |ws| ==> WordFrom(ws, b, i)
  }

  lemma UnpacksPrefix(b: seq<byte>, len: nat)
    requires len <= |b|
    ensures UnpackedFrom(UnpackWords(b[..len]), b)
  {
    var ws := UnpackWords(b[..len]);
    forall i | 0 <= i < |ws| ensures WordFrom(ws, b, i) {
      assert b[..len][2 * i] == b[2 * i] && b[..len][2 * i + 1] == b[2 * i + 1];
    }
  }

  lemma StoredUnpacked(b: seq<byte>, frame: seq<byte>)
    requires |frame| <= |b|
    ensures var ws := UnpackWords(frame);
            WordsOf(StoredTo(b, ws, |ws|)[..|frame|]) == ws && Words15(ws)
  {
    StoredFrame(b, UnpackWords(frame), |frame|);
  }

  /** `v` read as a two's complement number of `n` bits. */
  function SignedValue(v: nat, n: nat): int
    requires n >= 1
  {
    if v >= Pow2(n - 1) then v - Pow2(n) else v
  }

  class Buffer {
    const buffer: array<byte>
    var bufferLen: nat
    var wordPos: nat
    var bitPos: nat
    var inFrame: bool
    ghost var consumed: seq<byte>   // everything parsed so far
    ghost var stx: int               // where the current frame started

    constructor ()
      ensures fresh(buffer) && Valid() && consumed == [] && !inFrame
    {
      buffer := new byte[MAXBUFFER](_ => 0);
      bufferLen, wordPos, bitPos, inFrame := 0, 0, 0, false;
      consumed, stx := [], 0;
    }

    /** The bytes received so far for the current frame. */
    ghost function Bytes(): seq<byte>
      requires buffer.Length == MAXBUFFER && bufferLen <= MAXBUFFER
      reads this`bufferLen, buffer
    {
      buffer[..bufferLen]
    }

    /** Inside a frame, the buffer holds what has arrived since its STX. */
    ghost predicate Valid()
      reads this`bufferLen, this`inFrame, this`consumed, this`stx, buffer
    {
      && buffer.Length == MAXBUFFER && bufferLen <= MAXBUFFER
      && (inFrame ==> OpenAt(consumed, stx) && Bytes() == Cut(consumed[stx + 1..]))
      && (!inFrame ==> forall j :: !OpenAt(consumed, j))
    }

    // ---- framing ---------------------------------------------------------------

    method StartFrame()
      requires Valid()
      modifies this
      ensures Valid() && consumed == old(consumed) + [STX]
      ensures Payloads(consumed) == Payloads(old(consumed))
    {
      AfterStx(consumed);
      inFrame := true;
      bufferLen := 0;
      stx := |consumed|;
      consumed := consumed + [STX];
    }

    method EndFrame() returns (frame: bool)
      requires Valid()
      modifies this
      ensures Valid() && consumed == old(consumed) + [LF]
      ensures frame ==> !inFrame && bufferLen >= 2 && wordPos == bitPos == 0 && Payloads(consumed) == Payloads(old(consumed)) + [Bytes()]
      ensures !frame ==> Payloads(consumed) == Payloads(old(consumed))
    {
      frame := false;
      AfterLf(consumed);
      if inFrame {
        ClosesFrame(consumed, stx);
        inFrame := false;
        wordPos := 0;
        bitPos := 0;
        frame := bufferLen >= 2;
      } else {
        NothingToClose(consumed);
      }
      consumed := consumed + [LF];
    }

    method AddByte(c: byte)
      requires Valid() && c != STX && c != LF
      modifies this, buffer
      ensures Valid() && consumed == old(consumed) + [c]
      ensures Payloads(consumed) == Payloads(old(consumed))
    {
      AfterPlain(consumed, c, consumed + [c]);
      if inFrame {
        CutGrows(consumed, c, stx);
        StoreByte(c);
      }
      consumed := consumed + [c];
    }

    /** Appends a byte to the frame, if there is room. */
    method StoreByte(c: byte)
      requires buffer.Length == MAXBUFFER && bufferLen <= MAXBUFFER
      modifies this`bufferLen, buffer
      ensures bufferLen <= MAXBUFFER
      ensures Bytes() == if old(bufferLen) < MAXBUFFER then old(Bytes()) + [c] else old(Bytes())
    {
      if bufferLen < MAXBUFFER {
        buffer[bufferLen] := c;
        bufferLen := bufferLen + 1;
        assert Bytes() == old(Bytes()) + [c];
      }
    }

    /** Handles one byte; reports a complete frame. */
    method ParseByte(c: byte) returns (frame: bool)
      requires Valid()
      modifies this, buffer
      ensures Valid() && consumed == old(consumed) + [c]
      ensures frame ==> !inFrame && bufferLen >= 2 && wordPos == bitPos == 0 && Payloads(consumed) == Payloads(old(consumed)) + [Bytes()]
      ensures !frame ==> Payloads(consumed) == Payloads(old(consumed))
    {
      frame := false;
      if c == STX {
        StartFrame();
      } else if c == LF {
        frame := EndFrame();
      } else {
        AddByte(c);
      }
    }

    /** Consumes input up to the end of the next frame, or all of it. */
    method ParseData(data: seq<byte>, start: nat, len: nat) returns (frame: bool, pos: nat)
      requires Valid() && start + len <= |data|
      modifies this, buffer
      ensures Valid() && start <= pos <= start + len && (len > 0 ==> start < pos)
      ensures consumed == old(consumed) + data[start..pos]
      ensures frame ==> !inFrame && bufferLen >= 2 && wordPos == bitPos == 0 && Payloads(consumed) == Payloads(old(consumed)) + [Bytes()]
      ensures !frame ==> pos == start + len && Payloads(consumed) == Payloads(old(consumed))
    {
      pos := start;
      ghost var was, payloads := consumed, Payloads(consumed);
      while pos < start + len
        invariant start <= pos <= start + len && Valid()
        invariant consumed == was + data[start..pos]
        invariant Payloads(consumed) == payloads
      {
        SliceStep(data, start, pos);
        assert was + (data[start..pos] + [data[pos]]) == (was + data[start..pos]) + [data[pos]];
        frame := ParseByte(data[pos]);
        pos := pos + 1;
        if frame {
          return;
        }
      }
      frame := false;
    }
  
    // ---- unpacking ---------------------------------------------------------------

    /** Unpacks the buffer in place. */
    method UnpackInPlace()
      requires Valid() && !inFrame && bufferLen >= 2
      modifies buffer
      ensures Valid()
      ensures Words() == UnpackWords(old(Bytes()))
      ensures Words15(Words())
    {
      ghost var before, bytes := buffer[..], Bytes();
      assert before[..bufferLen] == bytes;
      StoredUnpacked(before, bytes);
      UnpacksPrefix(before, bufferLen);
      UnpackWordByWord(before, UnpackWords(bytes));
      assert Bytes() == buffer[..][..bufferLen];
    }

    /** The loop body runs before the test, so a frame needs at least two bytes. */
    method UnpackWordByWord(ghost before: seq<byte>, ghost ws: seq<nat>)
      requires buffer.Length == MAXBUFFER && 2 <= bufferLen <= MAXBUFFER
      requires buffer[..] == before && UnpackedFrom(ws, before) && |ws| == bufferLen / 2
      modifies buffer
      ensures buffer[..] == StoredTo(before, ws, |ws|)
    {
      ghost var n := |ws|;
      var nw := bufferLen / 2;
      var cpos := 0;
      while true
        invariant 0 <= cpos && 0 < nw && cpos + nw == n
        invariant buffer[..] == StoredTo(before, ws, cpos)
        decreases nw
      {
        UnpackAt(cpos, before, ws);
        cpos := cpos + 1;
        nw := nw - 1;
        if nw == 0 {
          break;
        }
      }
      assert cpos == n;
    }

    method UnpackAt(cpos: nat, ghost before: seq<byte>, ghost ws: seq<nat>)
      requires buffer.Length == |before|
      requires UnpackedFrom(ws, before) && cpos < |ws|
      requires buffer[..] == StoredTo(before, ws, cpos)
      modifies buffer
      ensures buffer[..] == StoredTo(before, ws, cpos + 1)
    {
      assert WordFrom(ws, before, cpos);
      assert buffer[2 * cpos] == buffer[..][2 * cpos] && buffer[2 * cpos + 1] == buffer[..][2 * cpos + 1];
      var w := UnpackPair(buffer[2 * cpos], buffer[2 * cpos + 1]);
      assert w == ws[cpos];
      buffer[2 * cpos], buffer[2 * cpos + 1] := w % 256, w / 256 % 256;
    }

    // ---- reading -------------------------------------------------------------------

    /** A copy of the frame's words. */
    method WordList() returns (ws: seq<nat>)
      requires buffer.Length == MAXBUFFER && bufferLen <= MAXBUFFER
      ensures ws == Words()
    {
      ws := WordsOf(buffer[..bufferLen]);
    }

    /** The unpacked words of the frame. */
    ghost function Words(): seq<nat>
      requires buffer.Length == MAXBUFFER && bufferLen <= MAXBUFFER
      reads this`bufferLen, buffer
    {
      WordsOf(Bytes())
    }

    /** An unpacked frame of whole words. */
    ghost predicate Unpacked()
      reads this`bufferLen, buffer
    {
      buffer.Length == MAXBUFFER && bufferLen <= MAXBUFFER && bufferLen % 2 == 0 && Words15(Words())
    }

    /** ... with the cursor on a bit of a word. */
    ghost predicate Readable()
      reads this`bufferLen, this`wordPos, this`bitPos, buffer
    {
      Unpacked() && wordPos % 2 == 0 && bitPos < 15
    }

    function Cursor(): nat
      reads this
    {
      15 * (wordPos / 2) + bitPos
    }

    method CurWord() returns (w: nat)
      requires buffer.Length == MAXBUFFER && bufferLen <= MAXBUFFER && bufferLen % 2 == 0 && wordPos % 2 == 0
      ensures w == WordAt(Words(), wordPos / 2)
    {
      if wordPos < bufferLen {
        w := Pair(buffer[wordPos], buffer[wordPos + 1]);
        assert Words()[wordPos / 2] == Pair(Bytes()[2 * (wordPos / 2)], Bytes()[2 * (wordPos / 2) + 1]);
      } else {
        w := 0;
      }
    }

    /** Moves to the next word and ORs it above the bits copied so far. */
    method CopyWord(ghost c: nat, rv: nat, copied: nat) returns (r: nat)
      requires Unpacked() && wordPos % 2 == 0 && 15 * (wordPos / 2 + 1) == c + copied
      requires copied < 32 && rv == CopiedBits(Words(), c, copied)
      modifies this`wordPos
      ensures wordPos == old(wordPos) + 2
      ensures r == CopiedBits(Words(), c, copied + 15)
    {
      wordPos := wordPos + 2;
      var w := CurWord();
      NextWord(Words(), c, copied, wordPos / 2, rv);
      r := Or(rv, Shl32(w, copied));
    }

    /** The part of a read that goes beyond the current word. */
    method CopyWords(ghost c: nat, nbits: nat, first: nat, copied: nat) returns (rv: nat, ghost bitsCopied: nat)
      requires Unpacked() && wordPos % 2 == 0 && 15 * (wordPos / 2 + 1) == c + copied
      requires copied <= nbits <= 32 && copied > 0 && first == CopiedBits(Words(), c, copied)
      modifies this`wordPos, this`bitPos
      ensures wordPos % 2 == 0 && bitPos < 15 && Cursor() == c + nbits
      ensures nbits <= bitsCopied && rv == CopiedBits(Words(), c, bitsCopied)
    {
      var copiedSoFar := copied;
      var left: int := nbits - copied;
      rv := first;
      while left > 0
        invariant wordPos % 2 == 0 && 15 * (wordPos / 2 + 1) == c + copiedSoFar
        invariant left == nbits - copiedSoFar > -15 && copiedSoFar > 0
        invariant rv == CopiedBits(Words(), c, copiedSoFar)
        decreases left
      {
        rv := CopyWord(c, rv, copiedSoFar);
        copiedSoFar := copiedSoFar + 15;
        left := left - 15;
      }
      bitsCopied := copiedSoFar;
      Settle(c + nbits, left);
    }

    /** Puts the cursor where the read ended: `left` bits before the end of the current word. */
    method Settle(ghost c: nat, left: int)
      requires wordPos % 2 == 0 && -15 < left <= 0 && 15 * (wordPos / 2 + 1) + left == c
      modifies this`wordPos, this`bitPos
      ensures wordPos % 2 == 0 && bitPos < 15 && Cursor() == c
    {
      if left == 0 {
        bitPos := 0;
        wordPos := wordPos + 2;
      } else {
        bitPos := left + 15;
      }
    }

    /** The bits of the current word from the cursor on. */
    method RestOfWord() returns (rv: nat)
      requires Readable()
      ensures rv == CopiedBits(Words(), Cursor(), 15 - bitPos)
    {
      PartialWord(Words(), wordPos / 2, bitPos);
      var w := CurWord();
      rv := Shr(w, bitPos);
    }

    /** Reads 0 to 32 bits: exactly the next `nbits` bits of the word string. */
    method ReadBits(nbits: nat) returns (r: nat)
      requires Readable() && nbits <= 32
      modifies this`wordPos, this`bitPos
      ensures Readable() && Cursor() == old(Cursor()) + nbits
      ensures r == BitsAt(Flat(Words()), old(Cursor()), nbits)
    {
      ghost var ws, c := Words(), Cursor();
      var mask := Mask(nbits);
      ghost var copied;
      var rv;
      rv, copied := Collect(nbits);
      r := And(rv, mask);
      FinalMask(ws, c, copied, nbits, rv);
    }

    /** Moves the cursor over the bits, collecting them and possibly more. */
    method Collect(nbits: nat) returns (rv: nat, ghost copied: nat)
      requires Readable() && nbits <= 32
      modifies this`wordPos, this`bitPos
      ensures wordPos % 2 == 0 && bitPos < 15 && Cursor() == old(Cursor()) + nbits
      ensures nbits <= copied && rv == CopiedBits(Words(), old(Cursor()), copied)
    {
      ghost var c := Cursor();
      rv := RestOfWord();
      var bitsCopied := 15 - bitPos;
      copied := bitsCopied;
      assert 15 * (wordPos / 2 + 1) == c + bitsCopied;
      bitPos := bitPos + nbits;
      if bitPos >= 15 {
        rv, copied := CopyWords(c, nbits, rv, bitsCopied);
      }
    }

    /** Reads a signed field of 1 to 31 bits. */
    method ReadBitsSigned(nbits: nat) returns (r: int)
      requires Readable() && 1 <= nbits <= 31
      modifies this`wordPos, this`bitPos
      ensures Readable() && Cursor() == old(Cursor()) + nbits
      ensures r == SignedValue(BitsAt(Flat(Words()), old(Cursor()), nbits), nbits)
    {
      ghost var c := Cursor();
      var rv := ReadBits(nbits);
      BitsAtBound(Flat(Words()), c, nbits);
      SignBit(rv, nbits);
      r := rv;
      if And(rv, Pow2(nbits - 1)) != 0 {
        r := r - Pow2(nbits);
      }
    }
  }

  method Mask(nbits: nat) returns (mask: nat)
    ensures mask == Pow2(nbits) - 1
  {
    if nbits == 32 { U32IsPow2(); }
    mask := if nbits == 32 then 0xFFFF_FFFF else Pow2(nbits) - 1;
  }

  /** Masking the copied bits leaves the requested ones. */
  lemma FinalMask(ws: seq<nat>, c: nat, copied: nat, n: nat, rv: nat)
    requires n <= copied && n <= 32 && rv == CopiedBits(ws, c, copied)
    ensures And(rv, Pow2(n) - 1) == BitsAt(Flat(ws), c, n)
  {
    AndMask(rv, n);
    BitsAtNarrow(Flat(ws), c, Min(copied, 32), n);
  }

  /** The top bit of an n-bit value says whether it is at least half the range. */
  lemma {:induction false} SignBit(v: nat, n: nat)
    requires n >= 1 && v < Pow2(n)
    ensures And(v, Pow2(n - 1)) != 0 <==> v >= Pow2(n - 1)
  {
    if n > 1 && v > 0 {
      SignBit(v / 2, n - 1);
    }
  }
}
