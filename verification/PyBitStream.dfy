/** The Python twin of the bit reader: unbounded integers, and a cursor that
    stops moving once it has passed the end of the buffer. */
module PyBitStream {
  import opened Bits
  import opened BitCodec
  import opened Pack15
  import opened BitBuffer

  class BitStream {
    const buffer: seq<byte>
    var wordPos: nat
    var bitPos: nat
    ghost var cursor: nat   // where a reader that never stops would be

    constructor (buffer: seq<byte>)
      requires |buffer| % 2 == 0 && Words15(WordsOf(buffer))
      ensures this.buffer == buffer && Valid() && cursor == 0
    {
      this.buffer := buffer;
      wordPos, bitPos, cursor := 0, 0, 0;
    }

    ghost function Words(): seq<nat> {
      WordsOf(buffer)
    }

    /** The stored cursor is the true one, until both are past the end. */
    ghost predicate Valid()
      reads this
    {
      && |buffer| % 2 == 0 && Words15(Words()) && wordPos % 2 == 0 && bitPos < 15
      && (15 * (wordPos / 2) + bitPos == cursor || (wordPos >= |buffer| && cursor >= 15 * |Words()|))
    }

    function Word(pos: nat): (w: nat)
      requires |buffer| % 2 == 0 && pos % 2 == 0
      ensures w == WordAt(Words(), pos / 2)
    {
      if pos >= |buffer| then 0
      else
        assert WordsOf(buffer)[pos / 2] == Pair(buffer[2 * (pos / 2)], buffer[2 * (pos / 2) + 1]);
        Pair(buffer[pos], buffer[pos + 1])
    }

    /** ORs further words above the bits copied so far, then stores the cursor. */
    method CopyWords(nbits: nat, first: nat, copied: nat) returns (rv: nat, ghost bitsCopied: nat)
      requires Valid() && wordPos < |buffer| && copied <= nbits && copied > 0
      requires 15 * (wordPos / 2 + 1) == cursor + copied && first == BitsAt(Flat(Words()), cursor, copied)
      modifies this`wordPos, this`bitPos
      ensures wordPos % 2 == 0 && bitPos < 15 && 15 * (wordPos / 2) + bitPos == cursor + nbits
      ensures nbits <= bitsCopied && rv == BitsAt(Flat(Words()), cursor, bitsCopied)
    {
      var wpos, soFar := wordPos, copied;
      var left: int := nbits - copied;
      rv := first;
      while left > 0
        invariant wpos % 2 == 0 && 15 * (wpos / 2 + 1) == cursor + soFar
        invariant left == nbits - soFar > -15 && soFar > 0
        invariant rv == BitsAt(Flat(Words()), cursor, soFar)
        decreases left
      {
        wpos := wpos + 2;
        NextWordUnbounded(Words(), cursor, soFar, wpos / 2, rv);
        rv := Or(rv, Shl(Word(wpos), soFar));
        soFar := soFar + 15;
        left := left - 15;
      }
      bitsCopied := soFar;
      Settle(wpos, left, cursor + nbits);
    }

    /** Stores the cursor, `left` bits before the end of the word at `wpos`. */
    method Settle(wpos: nat, left: int, ghost c: nat)
      requires wpos % 2 == 0 && -15 < left <= 0 && 15 * (wpos / 2 + 1) + left == c
      modifies this`wordPos, this`bitPos
      ensures wordPos % 2 == 0 && bitPos < 15 && 15 * (wordPos / 2) + bitPos == c
    {
      if left == 0 {
        bitPos := 0;
        wordPos := wpos + 2;
      } else {
        bitPos := left + 15;
        wordPos := wpos;
      }
    }

    /** Reads any number of bits: exactly what a never-stopping cursor would see. */
    method ReadBits(nbits: nat) returns (r: nat)
      requires Valid()
      modifies this
      ensures Valid() && cursor == old(cursor) + nbits
      ensures r == BitsAt(Flat(Words()), old(cursor), nbits)
    {
      ghost var ws, c := Words(), cursor;
      var mask := Pow2(nbits) - 1;
      if wordPos >= |buffer| {
        PastEnd(ws, cursor, nbits);
        cursor := cursor + nbits;
        return 0;
      }
      PartialWord(ws, wordPos / 2, bitPos);
      var rv := Shr(Word(wordPos), bitPos);
      var bitsCopied := 15 - bitPos;
      if bitPos + nbits < 15 {
        bitPos := bitPos + nbits;
        r := And(rv, mask);
        MaskBits(ws, c, bitsCopied, nbits, rv);
      } else {
        ghost var copied;
        rv, copied := CopyWords(nbits, rv, bitsCopied);
        r := And(rv, mask);
        MaskBits(ws, c, copied, nbits, rv);
      }
      cursor := cursor + nbits;
    }

    method ReadBitsSigned(nbits: nat) returns (r: int)
      requires Valid() && nbits >= 1
      modifies this
      ensures Valid() && cursor == old(cursor) + nbits
      ensures r == SignedValue(BitsAt(Flat(Words()), old(cursor), nbits), nbits)
    {
      ghost var c := cursor;
      var rv := ReadBits(nbits);
      BitsAtBound(Flat(Words()), c, nbits);
      SignBit(rv, nbits);
      r := rv;
      if And(rv, Pow2(nbits - 1)) != 0 {
        r := r - Pow2(nbits);
      }
    }
  }

  lemma MaskBits(ws: seq<nat>, c: nat, copied: nat, n: nat, rv: nat)
    requires n <= copied && rv == BitsAt(Flat(ws), c, copied)
    ensures And(rv, Pow2(n) - 1) == BitsAt(Flat(ws), c, n)
  {
    AndMask(rv, n);
    BitsAtNarrow(Flat(ws), c, copied, n);
  }
}
