/** The record link over a channel that loses frames: full frames restart the
    sequence, delta frames count modulo 16. */
module DeltaLink {
  import opened Bits
  import opened BitCodec
  import opened BitBuffer
  import opened CarData
  import opened RecordCode

  /** A stored value that a field's frame bits can express. */
  predicate Representable(f: Field, v: nat) {
    ValidField(f) && FieldValue(f, LowBits(v, f.width)) == v
  }

  predicate ValidRecord(table: seq<Field>, record: seq<nat>) {
    |record| == |table| && forall i :: 0 <= i < |table| ==> Representable(table[i], record[i])
  }

  /** One field on the wire; in a delta frame behind its update flag. */
  function FieldChunks(f: Field, v: nat, updated: bool, full: bool): seq<Chunk> {
    var bits := Chunk(f.width, LowBits(v, f.width));
    if full then [bits] else if updated then [Chunk(1, 1), bits] else [Chunk(1, 0)]
  }

  function FieldsChunks(table: seq<Field>, record: seq<nat>, updated: seq<bool>, full: bool, n: nat): seq<Chunk>
    requires n <= |table| == |record| == |updated|
  {
    if n == 0 then []
    else FieldsChunks(table, record, updated, full, n - 1) + FieldChunks(table[n - 1], record[n - 1], updated[n - 1], full)
  }

  function FullFrame(table: seq<Field>, record: seq<nat>, updated: seq<bool>): seq<Chunk>
    requires |table| == |record| == |updated|
  {
    [Chunk(1, 1)] + FieldsChunks(table, record, updated, true, |table|)
  }

  function DeltaFrame(table: seq<Field>, record: seq<nat>, updated: seq<bool>, seqno: nat): seq<Chunk>
    requires |table| == |record| == |updated|
  {
    [Chunk(1, 0), Chunk(4, seqno)] + FieldsChunks(table, record, updated, false, |table|)
  }

  /** The record a receiver holding `last` gets from the flagged fields of `record`. */
  function Merge(record: seq<nat>, last: seq<nat>, updated: seq<bool>): (r: seq<nat>)
    requires |record| == |last| == |updated|
    ensures |r| == |record|
    ensures forall i :: 0 <= i < |r| ==> r[i] == if updated[i] then record[i] else last[i]
  {
    seq(|record|, i requires 0 <= i < |record| => if updated[i] then record[i] else last[i])
  }

  // ---- decoding what was encoded ----------------------------------------------------

  /** A field's chunks decode to the field, and take as many bits as the decoder consumes. */
  lemma FieldDecodes(f: nat, c: nat, field: Field, v: nat, last: nat, updated: bool, full: bool)
    requires Representable(field, v) && Carries(f, c, FieldChunks(field, v, updated, full))
    ensures FieldAt(f, c, field, last, full) == (if full || updated then v else last, c + Width(FieldChunks(field, v, updated, full)))
  {
    var chunks := FieldChunks(field, v, updated, full);
    if !full && updated {
      assert chunks[1..] == [Chunk(field.width, LowBits(v, field.width))];
      assert Width(chunks) == 1 + Width(chunks[1..]);
    }
    SingleWidth(Chunk(field.width, LowBits(v, field.width)));
    SingleWidth(Chunk(1, 0));
  }

  lemma SingleWidth(chunk: Chunk)
    ensures Width([chunk]) == chunk.width
  {
    assert [chunk][1..] == [];
  }

  lemma Extend(a: seq<nat>, b: nat, n: nat, record: seq<nat>, last: seq<nat>, updated: seq<bool>, full: bool)
    requires 0 < n <= |record| == |last| == |updated| && |a| == n - 1
    requires forall i :: 0 <= i < n - 1 ==> a[i] == if full || updated[i] then record[i] else last[i]
    requires b == if full || updated[n - 1] then record[n - 1] else last[n - 1]
    ensures forall i :: 0 <= i < n ==> (a + [b])[i] == if full || updated[i] then record[i] else last[i]
  {
  }

  lemma {:induction false} FieldsDecode(
      f: nat, c: nat, table: seq<Field>, record: seq<nat>, last: seq<nat>, updated: seq<bool>, full: bool, n: nat)
    requires ValidTable(table) && ValidRecord(table, record) && n <= |table| == |last| == |updated|
    requires Carries(f, c, FieldsChunks(table, record, updated, full, n))
    ensures var r := FieldsAt(f, c, table, last, full, n);
            && r.1 == c + Width(FieldsChunks(table, record, updated, full, n))
            && forall i :: 0 <= i < n ==> r.0[i] == if full || updated[i] then record[i] else last[i]
  {
    if n > 0 {
      var before := FieldsChunks(table, record, updated, full, n - 1);
      var here := FieldChunks(table[n - 1], record[n - 1], updated[n - 1], full);
      CarriesAppend(f, c, before, here);
      FieldsDecode(f, c, table, record, last, updated, full, n - 1);
      NextFieldDecodes(f, c, table, record, last, updated, full, n, Width(before));
    }
  }

  lemma NextFieldDecodes(
      f: nat, c: nat, table: seq<Field>, record: seq<nat>, last: seq<nat>, updated: seq<bool>, full: bool, n: nat, w: nat)
    requires ValidTable(table) && ValidRecord(table, record) && 0 < n <= |table| == |last| == |updated|
    requires Carries(f, c + w, FieldChunks(table[n - 1], record[n - 1], updated[n - 1], full))
    requires var r := FieldsAt(f, c, table, last, full, n - 1);
             r.1 == c + w && forall i :: 0 <= i < n - 1 ==> r.0[i] == if full || updated[i] then record[i] else last[i]
    ensures var r := FieldsAt(f, c, table, last, full, n);
            && r.1 == c + w + Width(FieldChunks(table[n - 1], record[n - 1], updated[n - 1], full))
            && forall i :: 0 <= i < n ==> r.0[i] == if full || updated[i] then record[i] else last[i]
  {
    FieldDecodes(f, c + w, table[n - 1], record[n - 1], last[n - 1], updated[n - 1], full);
    var r := FieldsAt(f, c, table, last, full, n - 1);
    Extend(r.0, FieldAt(f, r.1, table[n - 1], last[n - 1], full).0, n, record, last, updated, full);
    NextFieldAt(f, c, table, last, full, n);
  }

  lemma NextFieldAt(f: nat, c: nat, table: seq<Field>, last: seq<nat>, full: bool, n: nat)
    requires ValidTable(table) && 0 < n <= |table| == |last|
    ensures var r := FieldsAt(f, c, table, last, full, n - 1);
            var here := FieldAt(f, r.1, table[n - 1], last[n - 1], full);
            FieldsAt(f, c, table, last, full, n).0 == r.0 + [here.0] && FieldsAt(f, c, table, last, full, n).1 == here.1
  {
  }

  /** A full frame is accepted whatever was expected, and gives the sender's record. */
  lemma FullDecodes(f: nat, c: nat, table: seq<Field>, record: seq<nat>, last: seq<nat>, updated: seq<bool>, expectSeq: int)
    requires ValidTable(table) && ValidRecord(table, record) && |table| == |last| == |updated|
    requires Carries(f, c, FullFrame(table, record, updated))
    ensures Decode(f, c, table, last, expectSeq) == Accepted(record, 0)
  {
    var fields := FieldsChunks(table, record, updated, true, |table|);
    assert FullFrame(table, record, updated)[1..] == fields;
    FieldsDecode(f, c + 1, table, record, last, updated, true, |table|);
    assert FieldsAt(f, c + 1, table, last, true, |table|).0 == record;
  }

  lemma DeltaParts(f: nat, c: nat, seqno: nat, fields: seq<Chunk>)
    requires Carries(f, c, [Chunk(1, 0), Chunk(4, seqno)] + fields)
    ensures BitsAt(f, c, 1) == 0 && BitsAt(f, c + 1, 4) == seqno && Carries(f, c + 5, fields)
  {
    var frame := [Chunk(1, 0), Chunk(4, seqno)] + fields;
    assert frame[1..] == [Chunk(4, seqno)] + fields;
    assert frame[1..][1..] == fields;
  }

  /** A delta frame is accepted exactly when its number is the expected one, and
      then updates the flagged fields of the receiver's last record. */
  lemma DeltaDecodes(f: nat, c: nat, table: seq<Field>, record: seq<nat>, last: seq<nat>, updated: seq<bool>, seqno: nat, expectSeq: int)
    requires ValidTable(table) && ValidRecord(table, record) && |table| == |last| == |updated| && seqno < 16
    requires Carries(f, c, DeltaFrame(table, record, updated, seqno))
    ensures Decode(f, c, table, last, expectSeq)
         == if seqno == expectSeq then Accepted(Merge(record, last, updated), NextNumber(seqno)) else Mismatch
  {
    DeltaParts(f, c, seqno, FieldsChunks(table, record, updated, false, |table|));
    FieldsMerge(f, c + 5, table, record, last, updated);
    DecodeDelta(Decode(f, c, table, last, expectSeq), f, c, table, last, seqno, expectSeq);
  }

  lemma FieldsMerge(f: nat, c: nat, table: seq<Field>, record: seq<nat>, last: seq<nat>, updated: seq<bool>)
    requires ValidTable(table) && ValidRecord(table, record) && |table| == |last| == |updated|
    requires Carries(f, c, FieldsChunks(table, record, updated, false, |table|))
    ensures FieldsAt(f, c, table, last, false, |table|).0 == Merge(record, last, updated)
  {
    FieldsDecode(f, c, table, record, last, updated, false, |table|);
  }

  lemma DecodeDelta(o: CarData.Outcome, f: nat, c: nat, table: seq<Field>, last: seq<nat>, seqno: nat, expectSeq: int)
    requires ValidTable(table) && |table| == |last| && o == Decode(f, c, table, last, expectSeq)
    requires BitsAt(f, c, 1) == 0 && BitsAt(f, c + 1, 4) == seqno
    ensures o == if seqno == expectSeq then Accepted(FieldsAt(f, c + 5, table, last, false, |table|).0, NextNumber(seqno)) else Mismatch
  {
  }

  // ---- the link ----------------------------------------------------------------------

  /** Sender (record, next number), receiver (last record, expected number or -1),
      and what has been lost: deltas since the last frame that arrived, and any full frame
      since the last one that arrived. */
  datatype Link = Link(record: seq<nat>, seqno: nat, last: seq<nat>, expectSeq: int, missed: nat, lostFull: bool)

  /** A frame is sent; if it arrives, the receiver finds it at bit `c` of `f`. */
  datatype Event =
    | Full(record: seq<nat>, updated: seq<bool>, arrives: bool, f: nat, c: nat)
    | Delta(record: seq<nat>, updated: seq<bool>, arrives: bool, f: nat, c: nat)

  predicate Shape(table: seq<Field>, s: Link) {
    && ValidTable(table) && ValidRecord(table, s.record) && |s.last| == |table|
    && s.seqno < 16 && -1 <= s.expectSeq < 16
  }

  /** The sender sends representable records and flags every field that changed. */
  predicate ValidEvent(table: seq<Field>, s: Link, e: Event) {
    && Shape(table, s)
    && ValidRecord(table, e.record) && |e.updated| == |table|
    && (e.Delta? ==> forall i :: 0 <= i < |table| && !e.updated[i] ==> e.record[i] == s.record[i])
    && (e.arrives ==> Carries(e.f, e.c,
          if e.Full? then FullFrame(table, e.record, e.updated) else DeltaFrame(table, e.record, e.updated, s.seqno)))
  }

  /** What the receiver makes of an arriving frame. */
  function Outcome(table: seq<Field>, s: Link, e: Event): CarData.Outcome
    requires Shape(table, s)
  {
    Decode(e.f, e.c, table, s.last, s.expectSeq)
  }

  predicate Accepts(table: seq<Field>, s: Link, e: Event)
    requires Shape(table, s)
  {
    e.arrives && Outcome(table, s, e).Accepted?
  }

  function Step(table: seq<Field>, s: Link, e: Event): Link
    requires Shape(table, s)
  {
    var sent := s.(record := e.record, seqno := if e.Full? then 0 else NextNumber(s.seqno));
    if !e.arrives then
      if e.Full? then sent.(lostFull := true) else sent.(missed := s.missed + 1)
    else
      var o := Outcome(table, s, e);
      sent.(last := RecordOf(o, s.last), expectSeq := NextOf(o),
            missed := 0, lostFull := s.lostFull && !e.Full?)
  }

  /** In sync: the sender's number is ahead of the expected one by the deltas lost,
      and without losses the receiver's record is the sender's. */
  predicate InSync(s: Link) {
    && 0 <= s.expectSeq < 16 && !s.lostFull
    && s.seqno == (s.expectSeq + s.missed) % 16
    && (s.missed == 0 ==> s.last == s.record)
  }

  predicate LinkInv(table: seq<Field>, s: Link) {
    Shape(table, s) && (s.expectSeq == -1 || s.lostFull || InSync(s))
  }

  /** The losses the protocol is built for: while the receiver is in step, fewer
      than sixteen deltas in a row and no full frame. */
  predicate Tolerable(s: Link, e: Event) {
    e.Delta? && e.arrives && s.expectSeq != -1 ==> s.missed < 16 && !s.lostFull
  }

  /** The sixteen numbers tell how many deltas are missing, modulo 16. */
  lemma AcceptsModulo16(table: seq<Field>, s: Link, e: Event)
    requires ValidEvent(table, s, e) && e.Delta? && e.arrives && InSync(s)
    ensures Accepts(table, s, e) <==> s.missed % 16 == 0
  {
    DeltaDecodes(e.f, e.c, table, e.record, s.last, e.updated, s.seqno, s.expectSeq);
    Ahead(s.expectSeq, s.missed);
  }

  lemma Ahead(expected: nat, missed: nat)
    requires expected < 16
    ensures (expected + missed) % 16 == expected <==> missed % 16 == 0
  {
  }

  /** An accepted delta is right exactly when the receiver already had every unflagged field. */
  lemma AcceptedDeltaIsRight(table: seq<Field>, s: Link, e: Event)
    requires ValidEvent(table, s, e) && e.Delta? && Accepts(table, s, e)
    ensures Step(table, s, e).last == e.record
       <==> forall i :: 0 <= i < |table| && !e.updated[i] ==> s.last[i] == e.record[i]
  {
    DeltaDecodes(e.f, e.c, table, e.record, s.last, e.updated, s.seqno, s.expectSeq);
    var m := Merge(e.record, s.last, e.updated);
    if forall i :: 0 <= i < |table| && !e.updated[i] ==> s.last[i] == e.record[i] {
      assert m == e.record;
    } else {
      var i :| 0 <= i < |table| && !e.updated[i] && s.last[i] != e.record[i];
      assert m[i] != e.record[i];
    }
  }

  lemma LostStep(table: seq<Field>, s: Link, e: Event)
    requires LinkInv(table, s) && ValidEvent(table, s, e) && !e.arrives
    ensures LinkInv(table, Step(table, s, e)) && !Accepts(table, s, e)
  {
    if e.Delta? && s.expectSeq != -1 && !s.lostFull {
      OneMore(s.expectSeq, s.missed);
    }
  }

  lemma OneMore(expected: nat, missed: nat)
    ensures ((expected + missed) % 16 + 1) % 16 == (expected + (missed + 1)) % 16
  {
  }

  /** Events that happen one after another, each valid where it happens. */
  predicate ValidRun(table: seq<Field>, s: Link, events: seq<Event>)
    requires Shape(table, s)
    decreases |events|
  {
    events == [] ||
    (ValidEvent(table, s, events[0])
     && Shape(table, Step(table, s, events[0])) && ValidRun(table, Step(table, s, events[0]), events[1..]))
  }

  predicate EveryAcceptedFrameRight(table: seq<Field>, s: Link, events: seq<Event>)
    requires Shape(table, s)
    decreases |events|
  {
    events == [] ||
    (Shape(table, Step(table, s, events[0]))
     && (Accepts(table, s, events[0]) ==> Step(table, s, events[0]).last == Step(table, s, events[0]).record)
     && EveryAcceptedFrameRight(table, Step(table, s, events[0]), events[1..]))
  }

  // ---- when every accepted frame is right -----------------------------------------------

  /** What can be told from the frames sent and which of them arrive: the sender's
      and the expected number, and the record sent in the last accepted frame. */
  datatype Channel = Channel(seqno: nat, expectSeq: int, accepted: seq<nat>)

  function Hears(c: Channel, e: Event): Channel {
    if e.Full? then
      if e.arrives then Channel(0, 0, e.record) else c.(seqno := 0)
    else
      var next := NextNumber(c.seqno);
      if !e.arrives then c.(seqno := next)
      else if c.seqno == c.expectSeq then Channel(next, next, e.record)
      else c.(seqno := next, expectSeq := -1)
  }

  /** A delta that arrives with the expected number flags every field that differs
      from the last accepted frame. */
  predicate Covers(c: Channel, e: Event) {
    e.Delta? && e.arrives && c.seqno == c.expectSeq ==>
      |e.record| == |c.accepted| == |e.updated| &&
      forall i :: 0 <= i < |e.record| && !e.updated[i] ==> e.record[i] == c.accepted[i]
  }

  predicate AllCovered(c: Channel, events: seq<Event>)
    decreases |events|
  {
    events == [] || (Covers(c, events[0]) && AllCovered(Hears(c, events[0]), events[1..]))
  }

  /** The receiver whose record is the last accepted one. */
  function ChannelOf(s: Link): Channel {
    Channel(s.seqno, s.expectSeq, s.last)
  }

  /** One event: an accepted frame is right exactly if it covers the changes, and then the channel knows the receiver. */
  lemma HearsStep(table: seq<Field>, s: Link, e: Event)
    requires ValidEvent(table, s, e)
    ensures Shape(table, Step(table, s, e))
    ensures (Accepts(table, s, e) ==> Step(table, s, e).last == e.record) <==> Covers(ChannelOf(s), e)
    ensures Covers(ChannelOf(s), e) ==> ChannelOf(Step(table, s, e)) == Hears(ChannelOf(s), e)
  {
    if e.arrives {
      if e.Full? {
        FullDecodes(e.f, e.c, table, e.record, s.last, e.updated, s.expectSeq);
      } else {
        DeltaDecodes(e.f, e.c, table, e.record, s.last, e.updated, s.seqno, s.expectSeq);
        if s.seqno == s.expectSeq {
          AcceptedDeltaIsRight(table, s, e);
        }
      }
    }
  }

  /** Over any run, with any losses: every accepted frame leaves both sides with the
      same record exactly if every delta that arrives with the expected number
      flags what differs from the last accepted frame. */
  lemma {:induction false} LinkAgreesExactly(table: seq<Field>, s: Link, events: seq<Event>)
    requires Shape(table, s) && ValidRun(table, s, events)
    ensures EveryAcceptedFrameRight(table, s, events) <==> AllCovered(ChannelOf(s), events)
    decreases |events|
  {
    if events != [] {
      HearsStep(table, s, events[0]);
      LinkAgreesExactly(table, Step(table, s, events[0]), events[1..]);
    }
  }

  // ---- tolerable losses ---------------------------------------------------------------------

  /** The losses of a run are those the protocol is built for. */
  predicate TolerableRun(table: seq<Field>, s: Link, events: seq<Event>)
    requires Shape(table, s) && ValidRun(table, s, events)
    decreases |events|
  {
    events == [] || (Tolerable(s, events[0]) && TolerableRun(table, Step(table, s, events[0]), events[1..]))
  }

  /** One event keeps the invariant, and covers the changes. */
  lemma TolerableCovers(table: seq<Field>, s: Link, e: Event)
    requires LinkInv(table, s) && ValidEvent(table, s, e) && Tolerable(s, e)
    ensures LinkInv(table, Step(table, s, e)) && Covers(ChannelOf(s), e)
  {
    if !e.arrives {
      LostStep(table, s, e);
    } else if e.Full? {
      FullDecodes(e.f, e.c, table, e.record, s.last, e.updated, s.expectSeq);
    } else {
      DeltaCovers(table, s, e);
      HearsStep(table, s, e);
      DeltaKeepsSync(table, s, e);
    }
  }

  lemma DeltaCovers(table: seq<Field>, s: Link, e: Event)
    requires LinkInv(table, s) && ValidEvent(table, s, e) && Tolerable(s, e) && e.Delta? && e.arrives
    ensures Covers(ChannelOf(s), e)
  {
    if s.expectSeq != -1 {
      Ahead(s.expectSeq, s.missed);
    }
  }

  lemma DeltaKeepsSync(table: seq<Field>, s: Link, e: Event)
    requires ValidEvent(table, s, e) && e.Delta? && e.arrives
    requires Covers(ChannelOf(s), e) && ChannelOf(Step(table, s, e)) == Hears(ChannelOf(s), e)
    ensures LinkInv(table, Step(table, s, e))
  {
    StillInSync(table, Step(table, s, e));
  }

  lemma StillInSync(table: seq<Field>, t: Link)
    requires Shape(table, t) && t.missed == 0 && (t.expectSeq == -1 || (t.expectSeq == t.seqno && t.last == t.record))
    ensures LinkInv(table, t)
  {
  }

  lemma {:induction false} TolerableRunCovers(table: seq<Field>, s: Link, events: seq<Event>)
    requires LinkInv(table, s) && ValidRun(table, s, events) && TolerableRun(table, s, events)
    ensures AllCovered(ChannelOf(s), events)
    decreases |events|
  {
    if events != [] {
      TolerableCovers(table, s, events[0]);
      HearsStep(table, s, events[0]);
      TolerableRunCovers(table, Step(table, s, events[0]), events[1..]);
    }
  }

  /** Over any run with tolerable losses, every accepted frame leaves both sides with the same record. */
  lemma LinkAgrees(table: seq<Field>, s: Link, events: seq<Event>)
    requires LinkInv(table, s) && ValidRun(table, s, events) && TolerableRun(table, s, events)
    ensures EveryAcceptedFrameRight(table, s, events)
  {
    TolerableRunCovers(table, s, events);
    LinkAgreesExactly(table, s, events);
  }

  /** After a mismatch nothing is written, and no delta is accepted until a full frame arrives. */
  lemma MismatchWaitsForFull(table: seq<Field>, s: Link, e: Event)
    requires ValidEvent(table, s, e) && s.expectSeq == -1
    ensures !(e.Full? && e.arrives) ==> Step(table, s, e).expectSeq == -1 && Step(table, s, e).last == s.last
    ensures e.Full? && e.arrives ==> Accepts(table, s, e) && Step(table, s, e).last == e.record
  {
    if e.arrives {
      if e.Full? {
        FullDecodes(e.f, e.c, table, e.record, s.last, e.updated, s.expectSeq);
      } else {
        DeltaDecodes(e.f, e.c, table, e.record, s.last, e.updated, s.seqno, s.expectSeq);
      }
    }
  }

  /** Sixteen deltas lost in a row go unnoticed: the next delta is accepted, and
      any field it does not carry stays wrong. */
  lemma SixteenLossesUnnoticed(table: seq<Field>, s: Link, e: Event, i: nat)
    requires ValidEvent(table, s, e) && e.Delta? && e.arrives && InSync(s) && s.missed == 16
    requires i < |table| && !e.updated[i] && s.last[i] != s.record[i]
    ensures Accepts(table, s, e) && Step(table, s, e).last != Step(table, s, e).record
  {
    AcceptsModulo16(table, s, e);
    AcceptedDeltaIsRight(table, s, e);
  }

  /** The link after `k` deltas in a row were lost. */
  function Losses(table: seq<Field>, s: Link, e: Event, k: nat): (r: Link)
    requires Shape(table, s) && e.Delta? && !e.arrives && ValidRecord(table, e.record)
    ensures Shape(table, r)
    ensures r == if k == 0 then s else s.(record := e.record, seqno := (s.seqno + k) % 16, missed := s.missed + k)
  {
    if k == 0 then s
    else
      OneMore(s.seqno, k - 1);
      Step(table, Losses(table, s, e, k - 1), e)
  }

  lemma NoBitsSet(c: nat, n: nat)
    ensures BitsAt(0, c, n) == 0
  {
    ShrZero(0, 0, c);
    NoLowBits(n);
  }

  lemma {:induction false} NoLowBits(n: nat)
    ensures LowBits(0, n) == 0
    decreases n
  {
    if n > 0 { NoLowBits(n - 1); }
  }

  /** A record of one single-bit field. */
  function OneBit(): (table: seq<Field>)
    ensures table == [Field(1, false, 8)] && ValidTable(table)
    ensures ValidRecord(table, [0]) && ValidRecord(table, [1])
  {
    StoredBit(0, 8);
    StoredBit(1, 8);
    [Field(1, false, 8)]
  }

  lemma {:induction false} StoredBit(v: nat, bits: nat)
    requires v == 0 || (v == 1 && bits > 0)
    ensures Stored(v, bits) == v && (bits > 0 ==> LowBits(v, 1) == v)
    decreases bits
  {
    if bits > 0 { StoredBit(0, bits - 1); }
  }

  /** An empty delta with the expected number, sent when the sender has 1 and the receiver
      0, is accepted and leaves the receiver with 0. */
  lemma EmptyDelta(s: Link)
    requires s.record == [1] && s.last == [0] && s.seqno == 0 == s.expectSeq
    ensures var next := Delta([1], [false], true, 0, 0);
            ValidEvent(OneBit(), s, next) && Accepts(OneBit(), s, next) && Step(OneBit(), s, next).last == [0]
  {
    ZeroDelta(OneBit(), 0);
    DeltaDecodes(0, 0, OneBit(), [1], [0], [false], 0, 0);
    assert Merge([1], [0], [false]) == [0];
  }

  /** The field goes from 0 to 1 in a lost delta, fifteen more are lost, and the next
      delta, which does not carry the field, is accepted: the receiver still has 0. */
  lemma SixteenLossesCase()
    ensures var s := Link([0], 0, [0], 0, 0, false);
            var lost := Delta([1], [true], false, 0, 0);
            var next := Delta([1], [false], true, 0, 0);
            && Shape(OneBit(), s) && InSync(s) && ValidEvent(OneBit(), s, lost)
            && ValidEvent(OneBit(), Losses(OneBit(), s, lost, 16), next)
            && Accepts(OneBit(), Losses(OneBit(), s, lost, 16), next)
            && Step(OneBit(), Losses(OneBit(), s, lost, 16), next).last == [0]
  {
    var s := Link([0], 0, [0], 0, 0, false);
    EmptyDelta(Losses(OneBit(), s, Delta([1], [true], false, 0, 0), 16));
  }

  /** A frame of zeros is an empty delta with number 0. */
  lemma ZeroDelta(table: seq<Field>, c: nat)
    requires table == OneBit()
    ensures Carries(0, c, DeltaFrame(table, [1], [false], 0))
  {
    var frame := DeltaFrame(table, [1], [false], 0);
    var none: seq<Chunk> := [];
    assert FieldsChunks(table, [1], [false], false, 0) == none;
    assert FieldsChunks(table, [1], [false], false, 1) == none + [Chunk(1, 0)];
    assert frame == [Chunk(1, 0), Chunk(4, 0)] + (none + [Chunk(1, 0)]);
    ZeroChunks(c, frame);
  }

  lemma {:induction false} ZeroChunks(c: nat, chunks: seq<Chunk>)
    requires forall i :: 0 <= i < |chunks| ==> chunks[i].value == 0
    ensures Carries(0, c, chunks)
    decreases |chunks|
  {
    if chunks != [] {
      NoBitsSet(c, chunks[0].width);
      ZeroChunks(c + chunks[0].width, chunks[1..]);
    }
  }

  /** One lost full frame is enough: a delta that follows it has the expected number by
      chance, is accepted, and leaves the receiver without the change. */
  lemma LostFullCase()
    ensures var s := Link([0], 0, [0], 0, 0, false);
            var lost := Full([1], [true], false, 0, 0);
            var next := Delta([1], [false], true, 0, 0);
            && Shape(OneBit(), s) && InSync(s) && ValidEvent(OneBit(), s, lost)
            && ValidEvent(OneBit(), Step(OneBit(), s, lost), next)
            && Accepts(OneBit(), Step(OneBit(), s, lost), next)
            && Step(OneBit(), Step(OneBit(), s, lost), next).last == [0]
  {
    var s := Link([0], 0, [0], 0, 0, false);
    EmptyDelta(Step(OneBit(), s, Full([1], [true], false, 0, 0)));
  }
}
