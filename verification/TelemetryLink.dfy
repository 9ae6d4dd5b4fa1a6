/** The record link from the sender's record to the receiver's, through packed and
    framed bytes, the checksum and the decoder, over a channel that loses frames. */
module TelemetryLink {
  import opened Bits
  import opened BitCodec
  import opened BitBuffer
  import opened CarData
  import opened RecordCode
  import opened DeltaLink
  import opened SerialLink
  import opened FrameCheck
  import opened TelemetryFrame

  /** The receiving program: its frame buffer, the record being decoded, the last
      accepted record and the expected number. */
  class Receiver {
    const table: seq<Field>
    const buf: Buffer
    const cd: array<nat>
    const lcd: array<nat>
    var expectSeq: int

    constructor (table: seq<Field>)
      requires ValidTable(table)
      ensures Valid() && this.table == table && expectSeq == -1
      ensures fresh(buf) && fresh(buf.buffer) && fresh(cd) && fresh(lcd)
      ensures forall i :: 0 <= i < |table| ==> lcd[i] == 0
    {
      this.table := table;
      buf := new Buffer();
      cd := new nat[|table|](_ => 0);
      lcd := new nat[|table|](_ => 0);
      expectSeq := -1;
    }

    ghost predicate Valid()
      reads buf`bufferLen, buf`inFrame, buf`consumed, buf`stx, buf.buffer
    {
      buf.Valid() && ValidTable(table) && |table| == cd.Length == lcd.Length && cd != lcd
    }

    /** What a dispatched data frame at bit 48 of the words makes of the receiver. */
    ghost predicate Decoded(f: nat, last: seq<nat>, expected: int)
      requires ValidTable(table) && |last| == |table|
      reads this`expectSeq, lcd
    {
      var o := Decode(f, 48, table, last, expected);
      expectSeq == NextOf(o) && lcd[..] == RecordOf(o, last)
    }

    /** Decodes a record; if it is accepted it becomes the last one. */
    method HandleDataFrame()
      requires Valid() && buf.Readable() && buf.Cursor() == 48
      modifies this`expectSeq, buf`wordPos, buf`bitPos, cd, lcd
      ensures Valid() && Decoded(Flat(buf.Words()), old(lcd[..]), old(expectSeq))
    {
      var next := ParseCarData(buf, table, cd, lcd, expectSeq);
      expectSeq := next;
      if next != -1 {
        KeepRecord();
      }
    }

    /** Makes the decoded record the last accepted one. */
    method KeepRecord()
      requires |table| == cd.Length == lcd.Length && cd != lcd
      modifies lcd
      ensures lcd[..] == cd[..]
    {
      forall i | 0 <= i < |table| {
        lcd[i] := cd[i];
      }
    }

    /** Reads the head of a dispatched frame and handles it by its type. */
    method ParseFrame()
      requires Valid() && buf.Readable() && buf.Cursor() == 15
      modifies this`expectSeq, buf`wordPos, buf`bitPos, cd, lcd
      ensures Valid()
      ensures if BitsAt(Flat(buf.Words()), 45, 3) == FT_DATA
              then Decoded(Flat(buf.Words()), old(lcd[..]), old(expectSeq))
              else expectSeq == old(expectSeq) && lcd[..] == old(lcd[..])
    {
      var frameType := ReadHead();
      if frameType == FT_DATA {
        HandleDataFrame();
      }
    }

    /** The firmware time and the frame type. */
    method ReadHead() returns (frameType: nat)
      requires buf.Readable() && buf.Cursor() == 15
      modifies buf`wordPos, buf`bitPos
      ensures buf.Readable() && buf.Cursor() == 48
      ensures frameType == BitsAt(Flat(buf.Words()), 45, 3)
    {
      var fwMillis := buf.ReadBits(30);
      frameType := buf.ReadBits(3);
    }

    /** Checks an unpacked frame, and parses it if it is intact. */
    method CheckFrame()
      requires Valid() && buf.Readable() && buf.Cursor() == 0 && buf.bufferLen >= 2
      modifies this`expectSeq, buf`wordPos, buf`bitPos, cd, lcd
      ensures Valid()
      ensures if Intact(buf.Bytes()) && BitsAt(Flat(buf.Words()), 45, 3) == FT_DATA
              then Decoded(Flat(buf.Words()), old(lcd[..]), old(expectSeq))
              else expectSeq == old(expectSeq) && lcd[..] == old(lcd[..])
    {
      var dispatch := HandleFrame(buf);
      if dispatch {
        ParseFrame();
      }
    }

    /** A sent record arrives as bytes: the receiver decodes what the sender laid out. */
    method Arrive(s: Link, e: Sent)
      requires Valid() && Sendable(table, s, e)
      modifies this`expectSeq, buf, buf.buffer, cd, lcd
      ensures Valid() && Decoded(Flat(SentWordsOf(table, s, e)), old(lcd[..]), old(expectSeq))
    {
      GetFrame(s, e);
      CheckFrame();
    }

    /** The bytes of a sent record, received and unpacked, are an intact data frame. */
    method GetFrame(s: Link, e: Sent)
      requires buf.Valid() && Sendable(table, s, e)
      modifies buf, buf.buffer
      ensures buf.Valid() && buf.Readable() && buf.Cursor() == 0 && buf.bufferLen >= 2
      ensures buf.Words() == SentWordsOf(table, s, e)
      ensures Intact(buf.Bytes()) && BitsAt(Flat(buf.Words()), 45, 3) == FT_DATA
    {
      var ws := SentWordsOf(table, s, e);
      ReceivePacked(buf, ws);
      PackedWords(ws);
      MadeFrameIsIntact(buf.Bytes(), BodyWords(table, s, e));
      FrameCarries(table, s, e);
    }
  }

  // ---- runs -------------------------------------------------------------------------

  predicate SendableRun(table: seq<Field>, s: Link, sents: seq<Sent>)
    decreases |sents|
  {
    sents == [] ||
    (Sendable(table, s, sents[0])
     && (EventIsValid(table, s, sents[0]); SendableRun(table, Step(table, s, EventOf(table, s, sents[0])), sents[1..])))
  }

  function EventsOf(table: seq<Field>, s: Link, sents: seq<Sent>): seq<Event>
    requires SendableRun(table, s, sents)
    decreases |sents|
  {
    if sents == [] then []
    else
      var e := EventOf(table, s, sents[0]);
      [e] + EventsOf(table, Step(table, s, e), sents[1..])
  }

  lemma {:induction false} RunIsValid(table: seq<Field>, s: Link, sents: seq<Sent>)
    requires Shape(table, s) && SendableRun(table, s, sents)
    ensures ValidRun(table, s, EventsOf(table, s, sents))
    decreases |sents|
  {
    if sents != [] {
      var e := EventOf(table, s, sents[0]);
      EventIsValid(table, s, sents[0]);
      HearsStep(table, s, e);
      RunIsValid(table, Step(table, s, e), sents[1..]);
      assert EventsOf(table, s, sents)[1..] == EventsOf(table, Step(table, s, e), sents[1..]);
    }
  }

  /** The rest of a run decides, if all was right so far. */
  lemma RunSplits(table: seq<Field>, s: Link, sents: seq<Sent>)
    requires Shape(table, s) && sents != [] && SendableRun(table, s, sents)
    ensures var e := EventOf(table, s, sents[0]);
            var t := Step(table, s, e);
            && Shape(table, t) && SendableRun(table, t, sents[1..])
            && (EveryAcceptedFrameRight(table, s, EventsOf(table, s, sents))
                <==> (Accepts(table, s, e) ==> t.last == e.record) && EveryAcceptedFrameRight(table, t, EventsOf(table, t, sents[1..])))
  {
    var e := EventOf(table, s, sents[0]);
    EventIsValid(table, s, sents[0]);
    HearsStep(table, s, e);
    assert EventsOf(table, s, sents)[1..] == EventsOf(table, Step(table, s, e), sents[1..]);
  }

  /** The receiver is where the link says. */
  ghost predicate At(r: Receiver, s: Link)
    reads r`expectSeq, r.lcd
  {
    r.lcd[..] == s.last && r.expectSeq == s.expectSeq
  }

  /** One record is sent; if its frame arrives, the receiver gets its bytes. Says whether
      the receiver's record is right, unless it accepted none. */
  method Send(r: Receiver, s: Link, e: Sent) returns (right: bool)
    requires r.Valid() && Sendable(r.table, s, e) && At(r, s)
    modifies r`expectSeq, r.buf, r.buf.buffer, r.cd, r.lcd
    ensures r.Valid() && At(r, Step(r.table, s, EventOf(r.table, s, e)))
    ensures var t := Step(r.table, s, EventOf(r.table, s, e));
            right <==> (Accepts(r.table, s, EventOf(r.table, s, e)) ==> t.last == e.record)
  {
    right := true;
    if e.arrives {
      r.Arrive(s, e);
      if r.expectSeq != -1 {
        right := r.lcd[..] == e.record;
      }
    }
  }

  /** End to end, over any run of sent records and losses: every record the receiver
      accepts is the one sent, exactly if every delta that arrives with the expected
      number flags what differs from the last accepted frame. */
  method Transmit(r: Receiver, start: Link, sents: seq<Sent>) returns (right: bool)
    requires r.Valid() && Shape(r.table, start) && SendableRun(r.table, start, sents) && At(r, start)
    modifies r`expectSeq, r.buf, r.buf.buffer, r.cd, r.lcd
    ensures r.Valid()
    ensures right <==> AllCovered(ChannelOf(start), EventsOf(r.table, start, sents))
  {
    right := true;
    var s, i := start, 0;
    ghost var all := EveryAcceptedFrameRight(r.table, start, EventsOf(r.table, start, sents));
    assert sents[0..] == sents;
    while i < |sents|
      invariant 0 <= i <= |sents| && r.Valid() && Shape(r.table, s) && At(r, s)
      invariant SendableRun(r.table, s, sents[i..])
      invariant all <==> right && EveryAcceptedFrameRight(r.table, s, EventsOf(r.table, s, sents[i..]))
    {
      var rest := sents[i..];
      RunSplits(r.table, s, rest);
      assert rest[0] == sents[i] && rest[1..] == sents[i + 1..];
      var ok := Send(r, s, sents[i]);
      right := right && ok;
      s := Step(r.table, s, EventOf(r.table, s, sents[i]));
      i := i + 1;
    }
    RunIsValid(r.table, start, sents);
    LinkAgreesExactly(r.table, start, EventsOf(r.table, start, sents));
  }
}
