/** The sender's side: bit fields laid out least significant bit first, cut into
    15-bit words, packed into bytes and framed. */
module RecordCode {
  import opened Bits
  import opened BitCodec
  import opened Pack15
  import opened Framing
  import opened BitBuffer
  import opened CarData

  /** A value to be sent in a given number of bits. */
  datatype Chunk = Chunk(width: nat, value: nat)

  predicate ValidChunks(chunks: seq<Chunk>) {
    forall i :: 0 <= i < |chunks| ==> chunks[i].width <= 32 && chunks[i].value < Pow2(chunks[i].width)
  }

  function Width(chunks: seq<Chunk>): nat {
    if chunks == [] then 0 else chunks[0].width + Width(chunks[1..])
  }

  /** The chunks laid end to end, least significant bits first. */
  function Layout(chunks: seq<Chunk>): nat {
    if chunks == [] then 0 else chunks[0].value + Pow2(chunks[0].width) * Layout(chunks[1..])
  }

  /** The bit string holds the chunks from bit `c` on. */
  predicate Carries(f: nat, c: nat, chunks: seq<Chunk>)
    decreases |chunks|
  {
    chunks == [] || (BitsAt(f, c, chunks[0].width) == chunks[0].value && Carries(f, c + chunks[0].width, chunks[1..]))
  }

  /** The low 15 n bits of a number as n words. */
  function ToWords(v: nat, n: nat): (ws: seq<nat>)
    ensures |ws| == n && Words15(ws)
  {
    if n == 0 then [] else [v % WORD] + ToWords(v / WORD, n - 1)
  }

  function PackBytes(ws: seq<nat>): (b: seq<byte>)
    requires Words15(ws)
    ensures |b| == 2 * |ws|
    ensures forall i :: 0 <= i < |ws| ==> b[2 * i] == PackLo(ws[i]) && b[2 * i + 1] == PackHi(ws[i])
  {
    if ws == [] then [] else PackBytes(ws[..|ws| - 1]) + [PackLo(ws[|ws| - 1]), PackHi(ws[|ws| - 1])]
  }

  /** A framed payload. */
  function Framed(payload: seq<byte>): seq<byte> {
    [STX] + payload + [LF]
  }

  // ---- layout -----------------------------------------------------------------

  lemma {:induction false} FlatOfWords(v: nat, n: nat)
    requires v < Pow2(15 * n)
    ensures Flat(ToWords(v, n)) == v
  {
    if n > 0 {
      WordIsPow2();
      DivBound(v, 15, 15 * (n - 1));
      FlatOfWords(v / WORD, n - 1);
      assert v == v % WORD + WORD * (v / WORD);
    }
  }

  lemma StackBound(w: nat, lo: nat, n: nat, hi: nat)
    requires lo < Pow2(w) && hi < Pow2(n)
    ensures lo + Pow2(w) * hi < Pow2(w + n)
  {
    Pow2Add(w, n);
    MulMonotone(Pow2(w), hi, Pow2(n));
  }

  lemma {:induction false} LayoutBound(chunks: seq<Chunk>)
    requires ValidChunks(chunks)
    ensures Layout(chunks) < Pow2(Width(chunks))
  {
    if chunks != [] {
      LayoutBound(chunks[1..]);
      StackBound(chunks[0].width, chunks[0].value, Width(chunks[1..]), Layout(chunks[1..]));
    }
  }

  /** Bits of a number whose low w bits are split off. */
  lemma BitsBehind(f: nat, w: nat, lo: nat, hi: nat, c: nat, n: nat)
    requires lo < Pow2(w) && f == lo + Pow2(w) * hi
    ensures BitsAt(f, 0, w) == lo
    ensures BitsAt(f, w + c, n) == BitsAt(hi, c, n)
  {
    DivModUnique(f, Pow2(w), hi, lo);
    LowBitsIsMod(f, w);
    ShrIsDivision(f, w + c);
    ShrIsDivision(hi, c);
    SplitAt(f, w, c);
  }

  lemma {:induction false} CarriesShifted(f: nat, w: nat, lo: nat, hi: nat, c: nat, chunks: seq<Chunk>)
    requires lo < Pow2(w) && f == lo + Pow2(w) * hi && Carries(hi, c, chunks)
    ensures Carries(f, w + c, chunks)
    decreases |chunks|
  {
    if chunks != [] {
      BitsBehind(f, w, lo, hi, c, chunks[0].width);
      CarriesShifted(f, w, lo, hi, c + chunks[0].width, chunks[1..]);
    }
  }

  /** A layout carries its chunks. */
  lemma {:induction false} LayoutCarries(chunks: seq<Chunk>)
    requires ValidChunks(chunks)
    ensures Carries(Layout(chunks), 0, chunks)
  {
    if chunks != [] {
      LayoutCarries(chunks[1..]);
      BitsBehind(Layout(chunks), chunks[0].width, chunks[0].value, Layout(chunks[1..]), 0, 0);
      CarriesShifted(Layout(chunks), chunks[0].width, chunks[0].value, Layout(chunks[1..]), 0, chunks[1..]);
    }
  }

  lemma {:induction false} CarriesAppend(f: nat, c: nat, a: seq<Chunk>, b: seq<Chunk>)
    ensures Carries(f, c, a + b) <==> Carries(f, c, a) && Carries(f, c + Width(a), b)
    ensures Width(a + b) == Width(a) + Width(b)
    decreases |a|
  {
    if a == [] {
      assert a + b == b;
    } else {
      assert (a + b)[1..] == a[1..] + b;
      CarriesAppend(f, c + a[0].width, a[1..], b);
    }
  }

  // ---- bytes ----------------------------------------------------------------------

  lemma PackedWords(ws: seq<nat>)
    requires Words15(ws)
    ensures UnpackWords(PackBytes(ws)) == ws
  {
    var b := PackBytes(ws);
    forall i | 0 <= i < |ws| ensures UnpackWords(b)[i] == ws[i] {
      PackedWord(b, ws, i);
    }
  }

  lemma PackedWord(b: seq<byte>, ws: seq<nat>, i: nat)
    requires Words15(ws) && i < |ws| && b == PackBytes(ws)
    ensures UnpackWords(b)[i] == ws[i]
  {
    UnpackPairPacked(ws[i]);
    UnpackedAt(b, i);
    assert b[2 * i] == PackLo(ws[i]) && b[2 * i + 1] == PackHi(ws[i]);
  }

  lemma UnpackedAt(b: seq<byte>, i: nat)
    requires 2 * i + 1 < |b|
    ensures UnpackWords(b)[i] == UnpackPair(b[2 * i], b[2 * i + 1])
  {
  }

  lemma PackedByte(b: seq<byte>, ws: seq<nat>, k: nat)
    requires Words15(ws) && b == PackBytes(ws) && k < |b|
    ensures b[k] >= 64
  {
    var i := k / 2;
    PackedAbove63(ws[i]);
    assert b[2 * i] == PackLo(ws[i]) && b[2 * i + 1] == PackHi(ws[i]);
    if k % 2 == 0 { assert k == 2 * i; } else { assert k == 2 * i + 1; }
  }

  lemma PackedPlain(ws: seq<nat>)
    requires Words15(ws)
    ensures Plain(PackBytes(ws))
  {
    var b := PackBytes(ws);
    forall k | 0 <= k < |b| ensures b[k] != STX && b[k] != LF {
      PackedByte(b, ws, k);
    }
  }

  /** The framed stream in the order the parser sees it. */
  lemma FramedOrder(history: seq<byte>, payload: seq<byte>)
    ensures history + Framed(payload) == history + [STX] + payload + [LF]
    ensures (history + [STX] + payload)[|history| + 1..] == payload
  {
  }

  /** Whatever came before, a framed payload of plain bytes is delivered whole. */
  lemma FramedPayload(history: seq<byte>, payload: seq<byte>)
    requires Plain(payload) && 2 <= |payload| <= MAXBUFFER
    ensures Payloads(history + Framed(payload)) == Payloads(history) + [payload]
  {
    var s := history + [STX];
    AfterStx(history);
    assert payload[..|payload|] == payload;
    AddPlain(s, payload, |history|, |payload|);
    FramedOrder(history, payload);
    AfterLf(s + payload);
    ClosesFrame(s + payload, |history|);
  }

  lemma {:induction false} AddPlain(s: seq<byte>, payload: seq<byte>, j: int, n: nat)
    requires Plain(payload) && n <= |payload| && OpenAt(s, j)
    ensures Payloads(s + payload[..n]) == Payloads(s) && OpenAt(s + payload[..n], j)
  {
    if n == 0 {
      assert s + payload[..0] == s;
    } else {
      AddPlain(s, payload, j, n - 1);
      var t := s + payload[..n - 1];
      assert t + [payload[n - 1]] == s + payload[..n];
      AfterPlain(t, payload[n - 1], s + payload[..n]);
    }
  }

  /** From chunks to words and back: the unpacked payload carries the chunks. */
  lemma SentWords(chunks: seq<Chunk>, n: nat)
    requires ValidChunks(chunks) && Width(chunks) <= 15 * n
    ensures Carries(Flat(UnpackWords(PackBytes(ToWords(Layout(chunks), n)))), 0, chunks)
  {
    var ws := ToWords(Layout(chunks), n);
    PackedWords(ws);
    LayoutBound(chunks);
    Pow2Monotone(Width(chunks), 15 * n);
    FlatOfWords(Layout(chunks), n);
    LayoutCarries(chunks);
  }
}
