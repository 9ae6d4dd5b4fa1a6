/** The binary CAN log: what the sink writes for each record, and a decoder
    that recovers the records from the file. */
module CanLog {
  import opened Bits
  import opened CanRing
  import opened Wrappers

  /** One decoded log entry. */
  datatype Entry = Entry(time: nat, bus: nat, extended: bool, id: nat, data: seq<nat>)

  const TWO_31: nat := 0x8000_0000
  const TWO_64: nat := 0x1_0000_0000_0000_0000
  const FILE_HEADER: seq<nat> := [67, 65, 78, 76, 79, 71, 49, 10]  // CANLOG1\n

  /** A frame as it sits in a record: 64-bit time, 8-bit length and bus, 32-bit id. */
  predicate StoredFrame(f: Frame) {
    && f.time < TWO_64 && f.busLen < 256 && f.id < 2 * TWO_31
    && |f.data| == f.busLen % 16
  }

  function Bus(f: Frame): nat { f.busLen / 16 % 4 }
  predicate Extended(f: Frame) { f.id >= TWO_31 }
  function FrameId(f: Frame): nat { f.id % TWO_31 }

  /** The identifier bits that reach the file: 31 for an extended frame, 16 for a standard one. */
  function KeptId(f: Frame): nat {
    if Extended(f) then FrameId(f) else FrameId(f) % 0x1_0000
  }

  function Max(a: nat, b: nat): nat { if a < b then b else a }

  // ---- encoding -------------------------------------------------------------

  /** Unsigned LEB128. */
  function Leb(d: nat): (r: seq<nat>)
    ensures |r| > 0
  {
    if d < 128 then [d] else [128 + d % 128] + Leb(d / 128)
  }

  function IdBytes(id: nat, extended: bool): seq<nat> {
    [id % 256, id / 256 % 256] + if extended then [id / 0x1_0000 % 256, id / 0x100_0000 % 256] else []
  }

  function Header(f: Frame): nat {
    (if Extended(f) then 128 else 0) + Bus(f) * 16 + f.busLen % 16
  }

  /** One record, `delta` milliseconds after the previous one. */
  function EncodeRecord(f: Frame, delta: nat): seq<nat> {
    Leb(delta) + [Header(f)] + IdBytes(FrameId(f), Extended(f)) + f.data
  }

  function EncodeAll(frames: seq<Frame>, last: nat): seq<nat> {
    if frames == [] then []
    else
      var time := Max(frames[0].time, last);
      EncodeRecord(frames[0], time - last) + EncodeAll(frames[1..], time)
  }

  // ---- the sink ----------------------------------------------------------------

  class Sink {
    var lastWriteMillis: nat
    var output: seq<nat>

    constructor ()
      ensures lastWriteMillis == 0 && output == FILE_HEADER
    {
      lastWriteMillis := 0;
      output := FILE_HEADER;
    }

    /** Appends one record to the file, going through a 32-byte buffer. */
    method WriteRecord(f: Frame)
      requires StoredFrame(f) && lastWriteMillis < TWO_64
      modifies this
      ensures lastWriteMillis == Max(f.time, old(lastWriteMillis)) < TWO_64
      ensures output == old(output) + EncodeRecord(f, lastWriteMillis - old(lastWriteMillis))
    {
      var outbuf := new nat[32];
      var time := f.time;
      var whichbus := f.busLen / 16 % 4;
      var framelen := f.busLen % 16;
      var extended := f.id / TWO_31;
      var frameid := f.id % TWO_31;
      if time < lastWriteMillis {
        time := lastWriteMillis;
      }
      var delta := time - lastWriteMillis;
      lastWriteMillis := time;

      var len := WriteDelta(outbuf, delta);
      len := WriteIdentity(outbuf, len, extended, whichbus, framelen, frameid);
      len := WriteData(outbuf, len, f.data, framelen);
      assert outbuf[..len] == EncodeRecord(f, delta);
      output := output + outbuf[..len];
    }
  }

  /** The header byte and the two or four identifier bytes. */
  method WriteIdentity(outbuf: array<nat>, n: nat, extended: nat, whichbus: nat, framelen: nat, frameid: nat) returns (n': nat)
    requires outbuf.Length == 32 && n <= 10 && extended < 2
    modifies outbuf
    ensures n' == n + (if extended != 0 then 5 else 3)
    ensures outbuf[..n'] == old(outbuf[..n]) + [extended * 128 + whichbus * 16 + framelen] + IdBytes(frameid, extended != 0)
  {
    outbuf[n] := extended * 128 + whichbus * 16 + framelen;
    outbuf[n + 1] := frameid % 256;
    outbuf[n + 2] := frameid / 256 % 256;
    n' := n + 3;
    if extended != 0 {
      outbuf[n + 3] := frameid / 0x1_0000 % 256;
      outbuf[n + 4] := frameid / 0x100_0000 % 256;
      n' := n + 5;
    }
  }

  method WriteData(outbuf: array<nat>, n: nat, data: seq<nat>, framelen: nat) returns (n': nat)
    requires outbuf.Length == 32 && n <= 15 && framelen == |data| <= 15
    modifies outbuf
    ensures n' == n + framelen <= 30 && outbuf[..n'] == old(outbuf[..n]) + data
  {
    forall i | 0 <= i < framelen {
      outbuf[n + i] := data[i];
    }
    n' := n + framelen;
  }

  /** The delta as LEB128 at the start of the buffer; the loop runs at least once. */
  method WriteDelta(outbuf: array<nat>, delta: nat) returns (n: nat)
    requires outbuf.Length == 32 && delta < TWO_64
    modifies outbuf
    ensures 1 <= n <= 10 && outbuf[..n] == Leb(delta)
  {
    var wdelta := delta;
    n := 0;
    LebLengthOf64Bits(delta);
    while true
      invariant 0 <= n && n + |Leb(wdelta)| <= 10
      invariant outbuf[..n] + Leb(wdelta) == Leb(delta)
      decreases wdelta
    {
      ghost var before := outbuf[..n];
      ghost var w := wdelta;
      outbuf[n] := 0x80 + wdelta % 0x80;
      n := n + 1;
      wdelta := wdelta / 0x80;
      assert outbuf[..n] == before + [0x80 + w % 0x80];
      if wdelta == 0 {
        assert Leb(w) == [w];
        break;
      }
      assert Leb(w) == [0x80 + w % 0x80] + Leb(wdelta);
    }
    outbuf[n - 1] := outbuf[n - 1] % 0x80;
  }

  /** Values representable in `k` LEB128 bytes. */
  function LebCap(k: nat): nat {
    if k == 0 then 1 else 128 * LebCap(k - 1)
  }

  /** Each LEB128 byte carries seven bits. */
  lemma {:induction false} LebLength(d: nat, k: nat)
    requires k >= 1 && d < LebCap(k)
    ensures |Leb(d)| <= k
  {
    if d >= 128 {
      LebLength(d / 128, k - 1);
    }
  }

  lemma LebLengthOf64Bits(d: nat)
    requires d < TWO_64
    ensures |Leb(d)| <= 10
  {
    assert LebCap(5) == 0x8_0000_0000;
    assert LebCap(10) >= TWO_64;
    LebLength(d, 10);
  }

  // ---- decoding -------------------------------------------------------------------

  /** The value of a LEB128 prefix and the bytes after it. */
  function DecodeLeb(s: seq<nat>): (r: Option<(nat, seq<nat>)>)
    ensures r.Some? ==> |r.value.1| < |s|
  {
    if s == [] then None
    else if s[0] < 128 then Some((s[0], s[1..]))
    else
      match DecodeLeb(s[1..])
      case None => None
      case Some((hi, rest)) => Some((s[0] - 128 + 128 * hi, rest))
  }

  /** Header, identifier and data of a record. */
  function DecodeBody(s: seq<nat>, time: nat): (r: Option<(Entry, seq<nat>)>)
    ensures r.Some? ==> |r.value.1| < |s|
  {
    if s == [] then None
    else
      var extended := s[0] >= 128;
      var bus, len := s[0] / 16 % 4, s[0] % 16;
      var idLen := if extended then 4 else 2;
      if |s| < 1 + idLen + len then None
      else
        Some((Entry(time, bus, extended, DecodeId(s[1..1 + idLen]), s[1 + idLen..1 + idLen + len]), s[1 + idLen + len..]))
  }

  function DecodeId(b: seq<nat>): nat {
    if b == [] then 0 else b[0] + 256 * DecodeId(b[1..])
  }

  function DecodeRecord(s: seq<nat>, last: nat): (r: Option<(Entry, seq<nat>)>)
    ensures r.Some? ==> |r.value.1| < |s|
  {
    match DecodeLeb(s)
    case None => None
    case Some((delta, rest)) => DecodeBody(rest, last + delta)
  }

  function DecodeAll(s: seq<nat>, last: nat): Option<seq<Entry>>
    decreases |s|
  {
    if s == [] then Some([])
    else
      match DecodeRecord(s, last)
      case None => None
      case Some((entry, rest)) =>
        match DecodeAll(rest, entry.time)
        case None => None
        case Some(more) => Some([entry] + more)
  }

  /** Reads a log file: the header, then the records. */
  function DecodeFile(s: seq<nat>): Option<seq<Entry>> {
    if FILE_HEADER <= s then DecodeAll(s[|FILE_HEADER|..], 0) else None
  }

  /** The entry a frame should come back as, logged after time `last`. */
  function EntryOf(f: Frame, last: nat): Entry {
    Entry(Max(f.time, last), Bus(f), Extended(f), KeptId(f), f.data)
  }

  /** Entries of a frame sequence: each time is the running maximum of the recorded times. */
  function Entries(frames: seq<Frame>, last: nat): seq<Entry> {
    if frames == [] then []
    else [EntryOf(frames[0], last)] + Entries(frames[1..], Max(frames[0].time, last))
  }

  // ---- round trip --------------------------------------------------------------------

  lemma {:induction false} LebRoundTrip(d: nat, rest: seq<nat>)
    ensures DecodeLeb(Leb(d) + rest) == Some((d, rest))
  {
    if d < 128 {
      assert ([d] + rest)[1..] == rest;
    } else {
      LebRoundTrip(d / 128, rest);
      assert Leb(d) + rest == [128 + d % 128] + (Leb(d / 128) + rest);
    }
  }

  lemma FourBytes(id: nat)
    requires id < TWO_31
    ensures id % 256 + 256 * (id / 256 % 256 + 256 * (id / 0x1_0000 % 256 + 256 * (id / 0x100_0000 % 256))) == id
    ensures id % 256 + 256 * (id / 256 % 256) == id % 0x1_0000
  {
    var q1 := id / 256;
    var q2 := q1 / 256;
    assert id / 0x1_0000 == q2 && id / 0x100_0000 == q2 / 256;
    assert id == id % 256 + 256 * q1 && q1 == q1 % 256 + 256 * q2 && q2 == q2 % 256 + 256 * (q2 / 256);
  }

  lemma IdRoundTrip(id: nat, extended: bool)
    requires id < TWO_31
    ensures DecodeId(IdBytes(id, extended)) == if extended then id else id % 0x1_0000
  {
    var b := IdBytes(id, extended);
    FourBytes(id);
    if extended {
      var b1, b2, b3 := b[1..], b[2..], b[3..];
      assert b1[1..] == b2 && b2[1..] == b3;
      assert DecodeId(b3) == b[3];
      assert DecodeId(b2) == b[2] + 256 * b[3];
      assert DecodeId(b1) == b[1] + 256 * DecodeId(b2);
    } else {
      assert DecodeId(b[1..]) == b[1];
    }
  }

  lemma HeaderFields(f: Frame)
    requires StoredFrame(f)
    ensures var h := Header(f); h / 16 % 4 == Bus(f) && h % 16 == f.busLen % 16 && (h >= 128 <==> Extended(f))
  {
  }

  lemma BodyRoundTrip(f: Frame, time: nat, rest: seq<nat>)
    requires StoredFrame(f)
    ensures DecodeBody([Header(f)] + IdBytes(FrameId(f), Extended(f)) + f.data + rest, time)
         == Some((Entry(time, Bus(f), Extended(f), KeptId(f), f.data), rest))
  {
    var ids := IdBytes(FrameId(f), Extended(f));
    var tail := [Header(f)] + ids + f.data + rest;
    HeaderFields(f);
    IdRoundTrip(FrameId(f), Extended(f));
    var n := |ids|;
    assert tail[1..1 + n] == ids;
    assert tail[1 + n..1 + n + |f.data|] == f.data;
    assert tail[1 + n + |f.data|..] == rest;
  }

  lemma RecordRoundTrip(f: Frame, last: nat, rest: seq<nat>)
    requires StoredFrame(f)
    ensures DecodeRecord(EncodeRecord(f, Max(f.time, last) - last) + rest, last) == Some((EntryOf(f, last), rest))
  {
    var delta := Max(f.time, last) - last;
    var tail := [Header(f)] + IdBytes(FrameId(f), Extended(f)) + f.data + rest;
    assert EncodeRecord(f, delta) + rest == Leb(delta) + tail;
    LebRoundTrip(delta, tail);
    BodyRoundTrip(f, last + delta, rest);
  }

  lemma DecodeAllStep(record: seq<nat>, rest: seq<nat>, last: nat, entry: Entry, more: seq<Entry>)
    requires DecodeRecord(record + rest, last) == Some((entry, rest))
    requires DecodeAll(rest, entry.time) == Some(more)
    ensures DecodeAll(record + rest, last) == Some([entry] + more)
  {
  }

  lemma LogStep(frames: seq<Frame>, last: nat)
    requires frames != [] && StoredFrame(frames[0])
    requires var time := Max(frames[0].time, last);
             DecodeAll(EncodeAll(frames[1..], time), time) == Some(Entries(frames[1..], time))
    ensures DecodeAll(EncodeAll(frames, last), last) == Some(Entries(frames, last))
  {
    var f, time := frames[0], Max(frames[0].time, last);
    var rest := EncodeAll(frames[1..], time);
    RecordRoundTrip(f, last, rest);
    DecodeAllStep(EncodeRecord(f, time - last), rest, last, EntryOf(f, last), Entries(frames[1..], time));
  }

  lemma {:induction false} LogRoundTrip(frames: seq<Frame>, last: nat)
    requires forall k :: 0 <= k < |frames| ==> StoredFrame(frames[k])
    ensures DecodeAll(EncodeAll(frames, last), last) == Some(Entries(frames, last))
  {
    if frames != [] {
      LogRoundTrip(frames[1..], Max(frames[0].time, last));
      LogStep(frames, last);
    }
  }

  /** A decoded identifier is the frame's own exactly when the frame is extended
      or its identifier fits sixteen bits. */
  lemma IdSurvives(f: Frame, last: nat)
    requires StoredFrame(f)
    ensures EntryOf(f, last).id == FrameId(f) <==> Extended(f) || FrameId(f) < 0x1_0000
  {
  }

  /** A standard identifier of 17 bits is logged as 0. */
  lemma WideIdCut(last: nat)
    ensures var f := Frame(0, 0, 0x1_0000, []);
            StoredFrame(f) && !Extended(f) && FrameId(f) == 0x1_0000
            && DecodeRecord(EncodeRecord(f, Max(0, last) - last), last).Some?
            && DecodeRecord(EncodeRecord(f, Max(0, last) - last), last).value.0.id == 0
  {
    var f := Frame(0, 0, 0x1_0000, []);
    RecordRoundTrip(f, last, []);
    assert EncodeRecord(f, Max(0, last) - last) + [] == EncodeRecord(f, Max(0, last) - last);
  }

  /** The log is uniquely decodable: equal bytes come from equal entries. */
  lemma UniquelyDecodable(a: seq<Frame>, b: seq<Frame>)
    requires forall k :: 0 <= k < |a| ==> StoredFrame(a[k])
    requires forall k :: 0 <= k < |b| ==> StoredFrame(b[k])
    ensures EncodeAll(a, 0) == EncodeAll(b, 0) <==> Entries(a, 0) == Entries(b, 0)
  {
    LogRoundTrip(a, 0);
    LogRoundTrip(b, 0);
    if Entries(a, 0) == Entries(b, 0) {
      EntriesDetermineBytes(a, b, 0);
    }
  }

  lemma FirstEntry(frames: seq<Frame>, last: nat)
    requires frames != []
    ensures Entries(frames, last) != [] && Entries(frames, last)[0] == EntryOf(frames[0], last)
    ensures Entries(frames, last)[1..] == Entries(frames[1..], Max(frames[0].time, last))
  {
  }

  lemma {:induction false} EntriesDetermineBytes(a: seq<Frame>, b: seq<Frame>, last: nat)
    requires forall k :: 0 <= k < |a| ==> StoredFrame(a[k])
    requires forall k :: 0 <= k < |b| ==> StoredFrame(b[k])
    requires Entries(a, last) == Entries(b, last)
    ensures EncodeAll(a, last) == EncodeAll(b, last)
  {
    LengthOfEntries(a, last);
    LengthOfEntries(b, last);
    if a != [] {
      FirstEntry(a, last);
      FirstEntry(b, last);
      SameEntrySameBytes(a[0], b[0], last);
      EntriesDetermineBytes(a[1..], b[1..], Max(a[0].time, last));
      FirstRecord(a, last);
      FirstRecord(b, last);
    }
  }

  lemma FirstRecord(frames: seq<Frame>, last: nat)
    requires frames != []
    ensures var time := Max(frames[0].time, last);
            EncodeAll(frames, last) == EncodeRecord(frames[0], time - last) + EncodeAll(frames[1..], time)
  {
  }

  lemma LowBytes(x: nat)
    ensures x % 256 == x % 0x1_0000 % 256 && x / 256 % 256 == x % 0x1_0000 / 256 % 256
  {
    var q := x / 256;
    assert x % 0x1_0000 == x % 256 + 256 * (q % 256);
  }

  lemma SameIdBytes(x: nat, y: nat, extended: bool)
    requires if extended then x == y else x % 0x1_0000 == y % 0x1_0000
    ensures IdBytes(x, extended) == IdBytes(y, extended)
  {
    LowBytes(x);
    LowBytes(y);
  }

  lemma SameEntrySameBytes(f: Frame, g: Frame, last: nat)
    requires StoredFrame(f) && StoredFrame(g) && EntryOf(f, last) == EntryOf(g, last)
    ensures Max(f.time, last) == Max(g.time, last)
    ensures EncodeRecord(f, Max(f.time, last) - last) == EncodeRecord(g, Max(g.time, last) - last)
  {
    assert |f.data| == |g.data|;
    SameIdBytes(FrameId(f), FrameId(g), Extended(f));
  }

  /** A record takes at most 30 of the 32 buffer bytes. */
  lemma RecordFitsBuffer(f: Frame, delta: nat)
    requires StoredFrame(f) && delta < TWO_64
    ensures 4 <= |EncodeRecord(f, delta)| <= 30
  {
    LebLengthOf64Bits(delta);
  }

  /** Logged time i is the running maximum of the recorded times 0..i. */
  lemma {:induction false} TimesAreRunningMaximum(frames: seq<Frame>, last: nat, i: nat)
    requires i < |frames|
    ensures |Entries(frames, last)| == |frames|
    ensures var t := Entries(frames, last)[i].time;
            && last <= t && (forall k :: 0 <= k <= i ==> frames[k].time <= t)
            && (t == last || exists k :: 0 <= k <= i && frames[k].time == t)
  {
    var time := Max(frames[0].time, last);
    if i > 0 {
      TimesAreRunningMaximum(frames[1..], time, i - 1);
      var t := Entries(frames, last)[i].time;
      assert forall k :: 1 <= k <= i ==> frames[k] == frames[1..][k - 1];
      if t != time {
        var k :| 0 <= k <= i - 1 && frames[1..][k].time == t;
        assert frames[k + 1].time == t;
      }
    } else {
      LengthOfEntries(frames, last);
    }
  }

  lemma {:induction false} LengthOfEntries(frames: seq<Frame>, last: nat)
    ensures |Entries(frames, last)| == |frames|
  {
    if frames != [] { LengthOfEntries(frames[1..], Max(frames[0].time, last)); }
  }

  lemma {:induction false} EntriesPrefix(frames: seq<Frame>, k: nat, last: nat)
    requires k <= |frames|
    ensures Entries(frames[..k], last) <= Entries(frames, last)
  {
    if k > 0 {
      EntriesPrefix(frames[1..], k - 1, Max(frames[0].time, last));
      assert frames[..k][1..] == frames[1..][..k - 1];
    }
  }

  lemma EmittedFramesValid(s: State)
    requires PointersOk(s) && SinkOk(s) && SinkRunning(s)
    ensures forall k :: 0 <= k < |s.h.emitted| ==> StoredFrame(s.h.emitted[k])
  {
    SinkSegment(s);
    forall k | 0 <= k < |s.h.emitted| ensures StoredFrame(s.h.emitted[k]) {
      assert s.h.emitted[k] == s.h.published[s.h.start + k];
    }
  }

  /** End to end: in every run of source and sink, the file written so far decodes
      to the log of the frames published since the sink started, up to those
      still in the ring. */
  lemma FileHoldsPublishedFrames(mem: Mem, actions: seq<Action>)
    requires WellFormed(mem) && mem.wp != |mem.slots| && ValidActions(actions)
    requires SinkRunning(Run(Start(mem), actions))
    ensures var s := Run(Start(mem), actions);
            && s.h.start <= |s.h.published|
            && DecodeFile(FILE_HEADER + EncodeAll(s.h.emitted, 0)).Some?
            && DecodeFile(FILE_HEADER + EncodeAll(s.h.emitted, 0)).value <= Entries(s.h.published[s.h.start..], 0)
  {
    var s := Run(Start(mem), actions);
    StartHolds(mem);
    RunKeeps(Start(mem), actions);
    InvIsSafe(s);
    EmittedFramesValid(s);
    LogRoundTrip(s.h.emitted, 0);
    var bytes := EncodeAll(s.h.emitted, 0);
    assert (FILE_HEADER + bytes)[|FILE_HEADER|..] == bytes;
    var since := s.h.published[s.h.start..];
    assert since[..|s.h.emitted|] == s.h.emitted;
    EntriesPrefix(since, |s.h.emitted|, 0);
  }
}
