/** A record frame as words: the checksum, the firmware time, the frame type and
    the record's fields. */
module TelemetryFrame {
  import opened Bits
  import opened BitCodec
  import opened BitBuffer
  import opened CarData
  import opened RecordCode
  import opened RecordTable
  import opened DeltaLink
  import opened FrameCheck
  import Crc16

  const FT_DATA := 1

  /** The bytes of the words, low byte first. */
  function BytesOfWords(ws: seq<nat>): (b: seq<byte>)
    ensures |b| == 2 * |ws|
  {
    seq(2 * |ws|, k requires 0 <= k < 2 * |ws| => if k % 2 == 0 then ws[k / 2] % 256 else ws[k / 2] / 256 % 256)
  }

  lemma WordsGiveBytes(b: seq<byte>, ws: seq<nat>)
    requires |b| == 2 * |ws| && WordsOf(b) == ws
    ensures b == BytesOfWords(ws)
  {
    forall k | 0 <= k < |b| ensures b[k] == BytesOfWords(ws)[k] {
      BytesOfPair(b, ws, k / 2);
    }
  }

  lemma BytesOfPair(b: seq<byte>, ws: seq<nat>, i: nat)
    requires |b| == 2 * |ws| && WordsOf(b) == ws && i < |ws|
    ensures b[2 * i] == ws[i] % 256 && b[2 * i + 1] == ws[i] / 256 % 256
  {
    SplitPair(b[2 * i], b[2 * i + 1], ws[i]);
  }

  lemma SplitPair(lo: byte, hi: byte, w: nat)
    requires w == lo + 256 * hi
    ensures lo == w % 256 && hi == w / 256 % 256
  {
  }

  /** The checksum of a body, as the word that is sent in front of it. */
  function ChecksumWord(ws: seq<nat>): (w: nat)
    ensures Word15(w)
    ensures Crc16.Binary(w, 15) == Crc16.Carried(Crc16.Checksum(Crc16.BitsOf(BytesOfWords(ws))))
  {
    var bits := Crc16.Carried(Crc16.Checksum(Crc16.BitsOf(BytesOfWords(ws))));
    NumberBound(bits, |bits|);
    WordIsPow2();
    Number(bits)
  }

  function FrameWords(ws: seq<nat>): (r: seq<nat>)
    requires Words15(ws)
    ensures Words15(r) && |r| == |ws| + 1
  {
    [ChecksumWord(ws)] + ws
  }

  /** A frame whose words were made this way is intact. */
  lemma MadeFrameIsIntact(b: seq<byte>, ws: seq<nat>)
    requires Words15(ws) && WordsOf(b) == FrameWords(ws) && |b| == 2 * |ws| + 2
    ensures Intact(b)
  {
    var tail := b[2..];
    forall i | 0 <= i < |ws| ensures WordsOf(tail)[i] == ws[i] {
      assert WordsOf(b)[i + 1] == ws[i];
      assert tail[2 * i] == b[2 * (i + 1)] && tail[2 * i + 1] == b[2 * (i + 1) + 1];
    }
    assert WordsOf(tail) == ws;
    WordsGiveBytes(tail, ws);
  }

  /** Bits behind the checksum word. */
  lemma BehindChecksum(ws: seq<nat>, chunks: seq<Chunk>)
    requires Words15(ws) && Carries(Flat(ws), 0, chunks)
    ensures Carries(Flat(FrameWords(ws)), 15, chunks)
  {
    var all := FrameWords(ws);
    assert all[1..] == ws;
    WordIsPow2();
    CarriesShifted(Flat(all), 15, ChecksumWord(ws), Flat(ws), 0, chunks);
  }

  // ---- a record frame ------------------------------------------------------------------

  /** A record that is sent, in a body of `words` words, and whether it arrives. */
  datatype Sent = Sent(full: bool, record: seq<nat>, updated: seq<bool>, arrives: bool, fwMillis: nat, words: nat)

  function RecordChunks(table: seq<Field>, s: Link, e: Sent): seq<Chunk>
    requires |table| == |e.record| == |e.updated|
  {
    if e.full then FullFrame(table, e.record, e.updated) else DeltaFrame(table, e.record, e.updated, s.seqno)
  }

  function Body(table: seq<Field>, s: Link, e: Sent): seq<Chunk>
    requires |table| == |e.record| == |e.updated|
  {
    [Chunk(30, e.fwMillis), Chunk(3, FT_DATA)] + RecordChunks(table, s, e)
  }

  /** The sender's duties: representable records, changed fields flagged, and
      room for the body in the receiver's buffer. */
  predicate Sendable(table: seq<Field>, s: Link, e: Sent) {
    && Shape(table, s)
    && ValidRecord(table, e.record) && |e.updated| == |table|
    && (!e.full ==> forall i :: 0 <= i < |table| && !e.updated[i] ==> e.record[i] == s.record[i])
    && e.fwMillis < Pow2(30) && 1 <= e.words <= 127 && Width(Body(table, s, e)) <= 15 * e.words
  }

  function BodyWords(table: seq<Field>, s: Link, e: Sent): (ws: seq<nat>)
    requires Sendable(table, s, e)
    ensures Words15(ws) && |ws| == e.words
  {
    ToWords(Layout(Body(table, s, e)), e.words)
  }

  function SentWordsOf(table: seq<Field>, s: Link, e: Sent): (ws: seq<nat>)
    requires Sendable(table, s, e)
    ensures Words15(ws) && 2 <= |ws| <= 128
  {
    FrameWords(BodyWords(table, s, e))
  }

  /** The frame as the link sees it: the record starts at bit 48. */
  function EventOf(table: seq<Field>, s: Link, e: Sent): Event
    requires Sendable(table, s, e)
  {
    var f := Flat(SentWordsOf(table, s, e));
    if e.full then Full(e.record, e.updated, e.arrives, f, 48) else Delta(e.record, e.updated, e.arrives, f, 48)
  }

  // ---- the frame carries the record ---------------------------------------------------------

  lemma ValidAppend(a: seq<Chunk>, b: seq<Chunk>)
    requires ValidChunks(a) && ValidChunks(b)
    ensures ValidChunks(a + b)
  {
  }

  lemma FieldChunksValid(f: Field, v: nat, updated: bool, full: bool)
    requires ValidField(f)
    ensures ValidChunks(FieldChunks(f, v, updated, full))
  {
    LowBitsIsMod(v, f.width);
    assert Pow2(1) == 2;
  }

  lemma {:induction false} FieldsChunksValid(table: seq<Field>, record: seq<nat>, updated: seq<bool>, full: bool, n: nat)
    requires ValidTable(table) && n <= |table| == |record| == |updated|
    ensures ValidChunks(FieldsChunks(table, record, updated, full, n))
    decreases n
  {
    if n > 0 {
      FieldsChunksValid(table, record, updated, full, n - 1);
      FieldChunksValid(table[n - 1], record[n - 1], updated[n - 1], full);
      ValidAppend(FieldsChunks(table, record, updated, full, n - 1), FieldChunks(table[n - 1], record[n - 1], updated[n - 1], full));
    }
  }

  lemma SmallChunks(fw: nat, seqno: nat)
    requires fw < Pow2(30) && seqno < 16
    ensures ValidChunks([Chunk(30, fw), Chunk(3, FT_DATA)]) && ValidChunks([Chunk(1, 1)]) && ValidChunks([Chunk(1, 0), Chunk(4, seqno)])
  {
    assert Pow2(1) == 2 && Pow2(3) == 8 && Pow2(4) == 16;
  }

  lemma BodyValid(table: seq<Field>, s: Link, e: Sent)
    requires Sendable(table, s, e)
    ensures ValidChunks(Body(table, s, e))
  {
    var fields := FieldsChunks(table, e.record, e.updated, e.full, |table|);
    SmallChunks(e.fwMillis, s.seqno);
    FieldsChunksValid(table, e.record, e.updated, e.full, |table|);
    ValidAppend(if e.full then [Chunk(1, 1)] else [Chunk(1, 0), Chunk(4, s.seqno)], fields);
    ValidAppend([Chunk(30, e.fwMillis), Chunk(3, FT_DATA)], RecordChunks(table, s, e));
  }

  /** The sent words carry time, type and record behind the checksum. */
  lemma FrameCarries(table: seq<Field>, s: Link, e: Sent)
    requires Sendable(table, s, e)
    ensures var f := Flat(SentWordsOf(table, s, e));
            BitsAt(f, 15, 30) == e.fwMillis && BitsAt(f, 45, 3) == FT_DATA && Carries(f, 48, RecordChunks(table, s, e))
  {
    var body := Body(table, s, e);
    var ws := BodyWords(table, s, e);
    BodyValid(table, s, e);
    SentWords(body, e.words);
    PackedWords(ws);
    BehindChecksum(ws, body);
    HeadAndRest(Flat(SentWordsOf(table, s, e)), e.fwMillis, RecordChunks(table, s, e));
  }

  lemma HeadAndRest(f: nat, fw: nat, rest: seq<Chunk>)
    requires Carries(f, 15, [Chunk(30, fw), Chunk(3, FT_DATA)] + rest)
    ensures BitsAt(f, 15, 30) == fw && BitsAt(f, 45, 3) == FT_DATA && Carries(f, 48, rest)
  {
    var all := [Chunk(30, fw), Chunk(3, FT_DATA)] + rest;
    assert all[1..] == [Chunk(3, FT_DATA)] + rest;
    assert all[1..][1..] == rest;
  }

  lemma EventIsValid(table: seq<Field>, s: Link, e: Sent)
    requires Sendable(table, s, e)
    ensures ValidEvent(table, s, EventOf(table, s, e))
  {
    FrameCarries(table, s, e);
  }

  // ---- room ------------------------------------------------------------------------------------

  lemma {:induction false} FieldsWidth(table: seq<Field>, record: seq<nat>, updated: seq<bool>, full: bool, n: nat)
    requires ValidTable(table) && n <= |table| == |record| == |updated|
    ensures Width(FieldsChunks(table, record, updated, full, n)) <= 33 * n
    decreases n
  {
    if n > 0 {
      FieldsWidth(table, record, updated, full, n - 1);
      var here := FieldChunks(table[n - 1], record[n - 1], updated[n - 1], full);
      CarriesAppend(0, 0, FieldsChunks(table, record, updated, full, n - 1), here);
      FieldWidth(table[n - 1], record[n - 1], updated[n - 1], full);
    }
  }

  lemma FieldWidth(f: Field, v: nat, updated: bool, full: bool)
    requires ValidField(f)
    ensures Width(FieldChunks(f, v, updated, full)) <= 33
  {
    var bits := Chunk(f.width, LowBits(v, f.width));
    SingleWidth(bits);
    SingleWidth(Chunk(1, 0));
    if !full && updated {
      assert [Chunk(1, 1), bits][1..] == [bits];
    }
  }

  /** Any frame of the vehicle's record, full or with every field flagged, fits the receiver's buffer. */
  lemma RecordFits(s: Link, e: Sent)
    requires Shape(Record(), s) && ValidRecord(Record(), e.record) && |e.updated| == 50
    ensures Width(Body(Record(), s, e)) <= 15 * 127
  {
    var fields := FieldsChunks(Record(), e.record, e.updated, e.full, 50);
    FieldsWidth(Record(), e.record, e.updated, e.full, 50);
    var head := if e.full then [Chunk(1, 1)] else [Chunk(1, 0), Chunk(4, s.seqno)];
    CarriesAppend(0, 0, head, fields);
    CarriesAppend(0, 0, [Chunk(30, e.fwMillis), Chunk(3, FT_DATA)], RecordChunks(Record(), s, e));
    HeadWidths(e.fwMillis, s.seqno);
  }

  lemma HeadWidths(fw: nat, seqno: nat)
    ensures Width([Chunk(1, 1)]) == 1 && Width([Chunk(1, 0), Chunk(4, seqno)]) == 5
    ensures Width([Chunk(30, fw), Chunk(3, FT_DATA)]) == 33
  {
    assert [Chunk(1, 0), Chunk(4, seqno)][1..] == [Chunk(4, seqno)];
    assert [Chunk(30, fw), Chunk(3, FT_DATA)][1..] == [Chunk(3, FT_DATA)];
    SingleWidth(Chunk(1, 1));
    SingleWidth(Chunk(4, seqno));
    SingleWidth(Chunk(3, FT_DATA));
  }
}
