/** Vehicle data records: full and delta frames over a bit string. */
module CarData {
  import opened Bits
  import opened BitCodec
  import opened BitBuffer
  import opened PyBitStream

  /** A record field: its width in the frame, and the width of the unsigned integer it is stored in. */
  datatype Field = Field(width: nat, signed: bool, storage: nat)

  predicate ValidField(f: Field) {
    1 <= f.width <= f.storage <= 32 && (f.signed ==> f.width <= 31)
  }

  predicate ValidTable(table: seq<Field>) {
    forall i :: 0 <= i < |table| ==> ValidField(table[i])
  }

  /** A number stored in an unsigned integer of `bits` bits. */
  function Stored(v: int, bits: nat): (r: nat)
    ensures r < Pow2(bits)
  {
    v % Pow2(bits)
  }

  /** The stored value of a field whose frame bits are `v`. */
  function FieldValue(f: Field, v: nat): nat
    requires ValidField(f)
  {
    Stored(if f.signed then SignedValue(v, f.width) else v, f.storage)
  }

  /** Decoding one field at bit `c`: in a full frame its bits follow; in a delta
      frame a flag says whether they do or the previous value is kept. */
  function FieldAt(f: nat, c: nat, field: Field, last: nat, full: bool): (r: (nat, nat))
    requires ValidField(field)
  {
    if full then (FieldValue(field, BitsAt(f, c, field.width)), c + field.width)
    else if BitsAt(f, c, 1) != 0 then (FieldValue(field, BitsAt(f, c + 1, field.width)), c + 1 + field.width)
    else (last, c + 1)
  }

  /** The first `n` fields of the record, and the cursor behind them. */
  function FieldsAt(f: nat, c: nat, table: seq<Field>, last: seq<nat>, full: bool, n: nat): (r: (seq<nat>, nat))
    requires ValidTable(table) && n <= |table| == |last|
    ensures |r.0| == n
  {
    if n == 0 then ([], c)
    else
      var before := FieldsAt(f, c, table, last, full, n - 1);
      var here := FieldAt(f, before.1, table[n - 1], last[n - 1], full);
      (before.0 + [here.0], here.1)
  }

  /** Sequence numbers have four bits. */
  function NextNumber(seqno: nat): (r: nat)
    ensures r < 16
  {
    (seqno + 1) % 16
  }

  /** The outcome of a record frame: the new record and the next expected
      sequence number, or a mismatch. */
  datatype Outcome = Mismatch | Accepted(record: seq<nat>, next: nat)

  function Decode(f: nat, c: nat, table: seq<Field>, last: seq<nat>, expectSeq: int): Outcome
    requires ValidTable(table) && |table| == |last|
  {
    if BitsAt(f, c, 1) != 0 then
      Accepted(FieldsAt(f, c + 1, table, last, true, |table|).0, 0)
    else
      var seqno := BitsAt(f, c + 1, 4);
      if seqno != expectSeq then Mismatch
      else Accepted(FieldsAt(f, c + 5, table, last, false, |table|).0, NextNumber(seqno))
  }

  // ---- the native decoder ----------------------------------------------------------

  method ReadField(buf: Buffer, field: Field) returns (v: nat)
    requires buf.Readable() && ValidField(field)
    modifies buf`wordPos, buf`bitPos
    ensures buf.Readable() && buf.Cursor() == old(buf.Cursor()) + field.width
    ensures v == FieldValue(field, BitsAt(Flat(buf.Words()), old(buf.Cursor()), field.width))
  {
    if field.signed {
      var r := buf.ReadBitsSigned(field.width);
      v := Stored(r, field.storage);
    } else {
      var r := buf.ReadBits(field.width);
      v := Stored(r, field.storage);
    }
  }

  /** One field of the record: read it, or copy the previous value. */
  method UpdateField(buf: Buffer, table: seq<Field>, i: nat, cd: array<nat>, lcd: array<nat>, full: bool)
    requires buf.Readable() && ValidTable(table) && i < |table| == cd.Length == lcd.Length
    modifies buf`wordPos, buf`bitPos, cd
    ensures buf.Readable()
    ensures var r := FieldAt(Flat(buf.Words()), old(buf.Cursor()), table[i], old(lcd[i]), full);
            buf.Cursor() == r.1 && cd[..] == old(cd[..])[i := r.0]
  {
    cd[i] := ReadOrKeep(buf, table[i], lcd[i], full);
  }

  /** The value in the frame, or the last one if it was not updated. */
  method ReadOrKeep(buf: Buffer, field: Field, last: nat, full: bool) returns (v: nat)
    requires buf.Readable() && ValidField(field)
    modifies buf`wordPos, buf`bitPos
    ensures buf.Readable()
    ensures var r := FieldAt(Flat(buf.Words()), old(buf.Cursor()), field, last, full); v == r.0 && buf.Cursor() == r.1
  {
    if full {
      v := ReadField(buf, field);
    } else {
      var updated := buf.ReadBits(1);
      if updated != 0 {
        v := ReadField(buf, field);
      } else {
        v := last;
      }
    }
  }

  method UpdateFields(buf: Buffer, table: seq<Field>, cd: array<nat>, lcd: array<nat>, full: bool)
    requires buf.Readable() && ValidTable(table) && |table| == cd.Length == lcd.Length && cd != lcd
    modifies buf`wordPos, buf`bitPos, cd
    ensures buf.Readable()
    ensures cd[..] == FieldsAt(Flat(buf.Words()), old(buf.Cursor()), table, lcd[..], full, |table|).0
  {
    ghost var f, c := Flat(buf.Words()), buf.Cursor();
    var i := 0;
    while i < |table|
      invariant 0 <= i <= |table| && buf.Readable()
      invariant cd[..i] == FieldsAt(f, c, table, lcd[..], full, i).0
      invariant buf.Cursor() == FieldsAt(f, c, table, lcd[..], full, i).1
    {
      UpdateField(buf, table, i, cd, lcd, full);
      assert cd[..i + 1] == cd[..][..i + 1];
      i := i + 1;
    }
    assert cd[..] == cd[..i];
  }

  /** Reads the frame type and, for a delta, its sequence number; -1 is a mismatch. */
  method ParseHeader(buf: Buffer, expectSeq: int) returns (full: bool, next: int)
    requires buf.Readable()
    modifies buf`wordPos, buf`bitPos
    ensures buf.Readable()
    ensures var f, c := Flat(buf.Words()), old(buf.Cursor());
            && full == (BitsAt(f, c, 1) != 0)
            && (full ==> next == 0 && buf.Cursor() == c + 1)
            && (!full ==> buf.Cursor() == c + 5 && next == if BitsAt(f, c + 1, 4) == expectSeq then NextNumber(BitsAt(f, c + 1, 4)) else -1)
  {
    var fullUpdate := buf.ReadBits(1);
    full := fullUpdate != 0;
    if full {
      next := 0;
    } else {
      var frameseq := buf.ReadBits(4);
      next := if frameseq == expectSeq then (frameseq + 1) % 16 else -1;
    }
  }

  /** Decodes a record frame. On a mismatch the record is left alone. */
  method ParseCarData(buf: Buffer, table: seq<Field>, cd: array<nat>, lcd: array<nat>, expectSeq: int) returns (next: int)
    requires buf.Readable() && ValidTable(table) && |table| == cd.Length == lcd.Length && cd != lcd
    modifies buf`wordPos, buf`bitPos, cd
    ensures buf.Readable()
    ensures next == NextOf(Decode(Flat(buf.Words()), old(buf.Cursor()), table, lcd[..], expectSeq))
    ensures cd[..] == RecordOf(Decode(Flat(buf.Words()), old(buf.Cursor()), table, lcd[..], expectSeq), old(cd[..]))
  {
    var full;
    full, next := ParseHeader(buf, expectSeq);
    if next != -1 {
      UpdateFields(buf, table, cd, lcd, full);
    }
  }

  function NextOf(o: Outcome): int {
    if o.Mismatch? then -1 else o.next
  }

  /** The record after a frame: replaced when accepted, untouched otherwise. */
  function RecordOf(o: Outcome, cd: seq<nat>): seq<nat> {
    if o.Mismatch? then cd else o.record
  }

  // ---- the Python decoder -------------------------------------------------------------

  method PyReadField(bs: BitStream, field: Field) returns (v: nat)
    requires bs.Valid() && ValidField(field)
    modifies bs
    ensures bs.Valid() && bs.cursor == old(bs.cursor) + field.width
    ensures v == FieldValue(field, BitsAt(Flat(bs.Words()), old(bs.cursor), field.width))
  {
    if field.signed {
      var r := bs.ReadBitsSigned(field.width);
      v := Stored(r, field.storage);
    } else {
      var r := bs.ReadBits(field.width);
      v := Stored(r, field.storage);
    }
  }

  method UpdateCd(bs: BitStream, table: seq<Field>, i: nat, cd: array<nat>, lcd: array<nat>, full: bool)
    requires bs.Valid() && ValidTable(table) && i < |table| == cd.Length == lcd.Length
    modifies bs, cd
    ensures bs.Valid()
    ensures var r := FieldAt(Flat(bs.Words()), old(bs.cursor), table[i], old(lcd[i]), full);
            bs.cursor == r.1 && cd[..] == old(cd[..])[i := r.0]
  {
    cd[i] := PyReadOrKeep(bs, table[i], lcd[i], full);
  }

  method PyReadOrKeep(bs: BitStream, field: Field, last: nat, full: bool) returns (v: nat)
    requires bs.Valid() && ValidField(field)
    modifies bs
    ensures bs.Valid()
    ensures var r := FieldAt(Flat(bs.Words()), old(bs.cursor), field, last, full); v == r.0 && bs.cursor == r.1
  {
    var present := full;
    if !full {
      var flag := bs.ReadBits(1);
      present := flag != 0;
    }
    if present {
      v := PyReadField(bs, field);
    } else {
      v := last;
    }
  }

  method PyUpdateFields(bs: BitStream, table: seq<Field>, cd: array<nat>, lcd: array<nat>, full: bool)
    requires bs.Valid() && ValidTable(table) && |table| == cd.Length == lcd.Length && cd != lcd
    modifies bs, cd
    ensures bs.Valid()
    ensures cd[..] == FieldsAt(Flat(bs.Words()), old(bs.cursor), table, lcd[..], full, |table|).0
  {
    ghost var f, c := Flat(bs.Words()), bs.cursor;
    var i := 0;
    while i < |table|
      invariant 0 <= i <= |table| && bs.Valid()
      invariant cd[..i] == FieldsAt(f, c, table, lcd[..], full, i).0
      invariant bs.cursor == FieldsAt(f, c, table, lcd[..], full, i).1
    {
      UpdateCd(bs, table, i, cd, lcd, full);
      assert cd[..i + 1] == cd[..][..i + 1];
      i := i + 1;
    }
    assert cd[..] == cd[..i];
  }

  method PyParseHeader(bs: BitStream, expectSeq: int) returns (full: bool, next: int)
    requires bs.Valid()
    modifies bs
    ensures bs.Valid()
    ensures var f, c := Flat(bs.Words()), old(bs.cursor);
            && full == (BitsAt(f, c, 1) != 0)
            && (full ==> next == 0 && bs.cursor == c + 1)
            && (!full ==> bs.cursor == c + 5 && next == if BitsAt(f, c + 1, 4) == expectSeq then NextNumber(BitsAt(f, c + 1, 4)) else -1)
  {
    var flag := bs.ReadBits(1);
    full := flag != 0;
    if full {
      next := 0;
    } else {
      var seqno := bs.ReadBits(4);
      next := if seqno == expectSeq then (seqno + 1) % 16 else -1;
    }
  }

  method PyParseCarData(bs: BitStream, table: seq<Field>, cd: array<nat>, lcd: array<nat>, expectSeq: int) returns (next: int)
    requires bs.Valid() && ValidTable(table) && |table| == cd.Length == lcd.Length && cd != lcd
    modifies bs, cd
    ensures bs.Valid()
    ensures next == NextOf(Decode(Flat(bs.Words()), old(bs.cursor), table, lcd[..], expectSeq))
    ensures cd[..] == RecordOf(Decode(Flat(bs.Words()), old(bs.cursor), table, lcd[..], expectSeq), old(cd[..]))
  {
    var full;
    full, next := PyParseHeader(bs, expectSeq);
    if next != -1 {
      PyUpdateFields(bs, table, cd, lcd, full);
    }
  }

  // ---- the twins agree --------------------------------------------------------------------

  /** Any sequence of reads gives the same values from both readers, even when
      it runs past the end of the frame. */
  method BothRead(buf: Buffer, bs: BitStream, widths: seq<nat>) returns (native: seq<nat>, python: seq<nat>)
    requires buf.Readable() && bs.Valid() && bs.Words() == buf.Words() && bs.cursor == buf.Cursor()
    requires forall i :: 0 <= i < |widths| ==> widths[i] <= 32
    modifies buf`wordPos, buf`bitPos, bs
    ensures native == python && |native| == |widths|
  {
    native, python := [], [];
    var i := 0;
    while i < |widths|
      invariant 0 <= i <= |widths| && buf.Readable() && bs.Valid()
      invariant bs.Words() == buf.Words() && bs.cursor == buf.Cursor()
      invariant native == python && |native| == i
    {
      var a := buf.ReadBits(widths[i]);
      var b := bs.ReadBits(widths[i]);
      native, python := native + [a], python + [b];
      i := i + 1;
    }
  }

  /** Both decoders leave the same record and next sequence number. */
  method BothDecode(buf: Buffer, bs: BitStream, table: seq<Field>, cd1: array<nat>, cd2: array<nat>, lcd: array<nat>, expectSeq: int)
    returns (next1: int, next2: int)
    requires buf.Readable() && bs.Valid() && bs.Words() == buf.Words() && bs.cursor == buf.Cursor()
    requires ValidTable(table) && |table| == cd1.Length == cd2.Length == lcd.Length
    requires cd1 != lcd && cd2 != lcd && cd1 != cd2 && cd1[..] == cd2[..]
    modifies buf`wordPos, buf`bitPos, bs, cd1, cd2
    ensures next1 == next2 && cd1[..] == cd2[..]
  {
    next1 := ParseCarData(buf, table, cd1, lcd, expectSeq);
    next2 := PyParseCarData(bs, table, cd2, lcd, expectSeq);
  }
}
