/** The shared-memory ring between the CAN log source and sink, as a state
    machine whose steps are single pointer loads, pointer stores and record
    field accesses, interleaved in any order. */
module CanRing {
  import opened Bits

  /** A received CAN frame with its time stamp; the low nibble of `busLen` is the data length. */
  datatype Frame = Frame(time: nat, busLen: nat, id: nat, data: seq<nat>)

  datatype Slot = Slot(time: nat, busLen: nat, id: nat, data: seq<nat>)

  /** Record 0 is overlaid by the two pointers and is never used as a record. */
  datatype Mem = Mem(rp: nat, wp: nat, slots: seq<Slot>)

  datatype SourcePc =
    | SrcLoadW                                   // init: load the write pointer
    | SrcStoreW                                  // init: store 1
    | SrcLoadR                                   // init: load the read pointer
    | SrcCas(expected: nat)                           // init: compare and exchange it with 1
    | SrcIdle
    | SrcGetW(f: Frame)                          // a frame arrived: load the write pointer
    | SrcTime(f: Frame, w: nat)                  // fill the record, field by field
    | SrcBusLen(f: Frame, w: nat)
    | SrcId(f: Frame, w: nat)
    | SrcData(f: Frame, w: nat)
    | SrcCheck(f: Frame, w: nat)                 // count it, load the read pointer, drop or go on
    | SrcPublish(f: Frame, w: nat, next: nat)    // store the write pointer

  datatype Source = Source(pc: SourcePc, frameCount: nat, dropCount: nat)

  datatype SinkPc =
    | SnkLoadW                                   // init: load the write pointer
    | SnkStoreR(next: nat)                       // init: store it as read pointer
    | SnkGetR                                    // load the read pointer
    | SnkPoll(r: nat)                            // load the write pointer, sleep if nothing new
    | SnkTime(r: nat, w: nat)                    // read the record, field by field
    | SnkBusLen(r: nat, w: nat, time: nat)
    | SnkId(r: nat, w: nat, time: nat, busLen: nat)
    | SnkData(r: nat, w: nat, time: nat, busLen: nat, id: nat)
    | SnkAdvance(r: nat, w: nat)                 // store the advanced read pointer

  /** What has happened so far. `base` and `r` unwrap the pointers: the write
      pointer stands for index base + |published|, the read pointer for r. */
  datatype History = History(
    published: seq<Frame>, emitted: seq<Frame>, start: nat, seen: nat, srcStart: nat, base: nat, r: nat)

  datatype State = State(mem: Mem, src: Source, snk: SinkPc, h: History)

  datatype Action =
    | SourceStep
    | FrameArrives(f: Frame)
    | SinkStep
    | SourceRestart
    | SinkRestart

  /** A classic CAN frame: at most eight data bytes, 64-bit time, 8-bit length and bus, 32-bit id. */
  predicate ValidFrame(f: Frame) {
    |f.data| == f.busLen % 16 <= 8 && f.time < 0x1_0000_0000_0000_0000 && f.busLen < 256 && f.id < 0x1_0000_0000
  }

  predicate InRange(p: nat, n: nat) {
    1 <= p < n
  }

  function Next(p: nat, n: nat): nat {
    if p + 1 >= n then 1 else p + 1
  }

  function Take(data: seq<nat>, len: nat): seq<nat> {
    if len <= |data| then data[..len] else data
  }

  // ---- the steps ---------------------------------------------------------

  function WithPc(s: State, pc: SourcePc): State {
    s.(src := s.src.(pc := pc))
  }

  function SetSlot(mem: Mem, i: nat, slot: Slot): Mem {
    if i < |mem.slots| then mem.(slots := mem.slots[i := slot]) else mem
  }

  function GetSlot(mem: Mem, i: nat): Slot {
    if i < |mem.slots| then mem.slots[i] else Slot(0, 0, 0, [])
  }

  function SourceStepFn(s: State): State {
    var n := |s.mem.slots|;
    match s.src.pc
    case SrcLoadW => WithPc(s, if InRange(s.mem.wp, n) then SrcLoadR else SrcStoreW)
    case SrcStoreW => WithPc(s.(mem := s.mem.(wp := 1)), SrcLoadR)
    case SrcLoadR => WithPc(s, if InRange(s.mem.rp, n) then SrcIdle else SrcCas(s.mem.rp))
    case SrcCas(expected) =>
      if s.mem.rp == expected then
        WithPc(s.(mem := s.mem.(rp := 1), h := s.h.(r := UnwrapOne(s, n))), SrcIdle)
      else WithPc(s, if InRange(s.mem.rp, n) then SrcIdle else SrcCas(s.mem.rp))
    case SrcIdle => s
    case SrcGetW(f) => WithPc(s, SrcTime(f, s.mem.wp))
    case SrcTime(f, w) =>
      WithPc(s.(mem := SetSlot(s.mem, w, GetSlot(s.mem, w).(time := f.time))), SrcBusLen(f, w))
    case SrcBusLen(f, w) =>
      WithPc(s.(mem := SetSlot(s.mem, w, GetSlot(s.mem, w).(busLen := f.busLen))), SrcId(f, w))
    case SrcId(f, w) =>
      WithPc(s.(mem := SetSlot(s.mem, w, GetSlot(s.mem, w).(id := f.id))), SrcData(f, w))
    case SrcData(f, w) =>
      var slot := GetSlot(s.mem, w);
      var data := if |f.data| <= |slot.data| then f.data + slot.data[|f.data|..] else f.data;
      WithPc(s.(mem := SetSlot(s.mem, w, slot.(data := data))), SrcCheck(f, w))
    case SrcCheck(f, w) =>
      var counted := s.src.(frameCount := s.src.frameCount + 1);
      if Next(w, n) == s.mem.rp then
        s.(src := counted.(pc := SrcIdle, dropCount := s.src.dropCount + 1))
      else s.(src := counted.(pc := SrcPublish(f, w, Next(w, n))))
    case SrcPublish(f, w, next) =>
      WithPc(s.(mem := s.mem.(wp := next), h := s.h.(published := s.h.published + [f])), SrcIdle)
  }

  /** The unwrapped index of position 1 behind the write pointer. */
  function UnwrapOne(s: State, n: nat): nat {
    var w := s.h.base + |s.h.published|;
    if s.mem.wp - 1 <= w && s.mem.wp >= 1 then w - (s.mem.wp - 1) else 0
  }

  function SinkStepFn(s: State): State {
    var n := |s.mem.slots|;
    match s.snk
    case SnkLoadW =>
      s.(snk := SnkStoreR(if InRange(s.mem.wp, n) then s.mem.wp else 1),
         h := s.h.(start := |s.h.published|, emitted := []))
    case SnkStoreR(next) =>
      s.(mem := s.mem.(rp := next), snk := SnkGetR, h := s.h.(r := s.h.base + s.h.start))
    case SnkGetR => s.(snk := SnkPoll(s.mem.rp))
    case SnkPoll(r) =>
      var w := s.mem.wp;
      if w == r || w < 1 || w > n then s
      else s.(snk := SnkTime(r, w), h := s.h.(seen := |s.h.published|))
    case SnkTime(r, w) => s.(snk := SnkBusLen(r, w, GetSlot(s.mem, r).time))
    case SnkBusLen(r, w, t) => s.(snk := SnkId(r, w, t, GetSlot(s.mem, r).busLen))
    case SnkId(r, w, t, b) => s.(snk := SnkData(r, w, t, b, GetSlot(s.mem, r).id))
    case SnkData(r, w, t, b, id) =>
      var f := Frame(t, b, id, Take(GetSlot(s.mem, r).data, b % 16));
      s.(snk := SnkAdvance(Next(r, n), w), h := s.h.(emitted := s.h.emitted + [f]))
    case SnkAdvance(r, w) =>
      s.(mem := s.mem.(rp := r), snk := if r == w then SnkPoll(r) else SnkTime(r, w), h := s.h.(r := s.h.r + 1))
  }

  function Step(s: State, a: Action): State {
    match a
    case SourceStep => SourceStepFn(s)
    case FrameArrives(f) => if s.src.pc.SrcIdle? then WithPc(s, SrcGetW(f)) else s
    case SinkStep => SinkStepFn(s)
    case SourceRestart => s.(src := Source(SrcLoadW, 0, 0), h := s.h.(srcStart := |s.h.published|))
    case SinkRestart => s.(snk := SnkLoadW)
  }

  function Run(s: State, actions: seq<Action>): State
    decreases |actions|
  {
    if actions == [] then s else Step(Run(s, actions[..|actions| - 1]), actions[|actions| - 1])
  }

  /** Both processes about to start on whatever the shared memory holds. */
  function Start(mem: Mem): State
    requires |mem.slots| >= 2
  {
    var m := |mem.slots| - 1;
    var w := if InRange(mem.wp, |mem.slots|) then mem.wp else 1;
    State(mem, Source(SrcLoadW, 0, 0), SnkLoadW, History([], [], 0, 0, 0, w - 1 + m, UnwrapRead(w, mem.rp, m)))
  }

  /** The unwrapped index of a read pointer that is less than one lap behind `w`. */
  function UnwrapRead(w: nat, rp: nat, m: nat): nat
    requires w >= 1 && m > 0
  {
    w - 1 + m - (w - rp) % m
  }

  // ---- unwrapped positions --------------------------------------------------

  /** The ring position reached after `k` advances from position 1. */
  function Pos(k: nat, n: nat): (p: nat)
    requires n >= 2
    ensures 1 <= p < n
  {
    if k == 0 then 1 else Next(Pos(k - 1, n), n)
  }

  lemma {:induction false} PosIsMod(k: nat, n: nat)
    requires n >= 2
    ensures Pos(k, n) == 1 + k % (n - 1)
  {
    if k > 0 {
      PosIsMod(k - 1, n);
      ModNext(k - 1, n - 1);
    }
  }

  lemma ModNext(k: nat, m: nat)
    requires m > 0
    ensures (k + 1) % m == if k % m + 1 < m then k % m + 1 else 0
  {
    var q, r := k / m, k % m;
    if r + 1 < m {
      DivModUnique(k + 1, m, q, r + 1);
    } else {
      assert m * (q + 1) == m * q + m;
      DivModUnique(k + 1, m, q + 1, 0);
    }
  }

  /** Two indices less than one lap apart at the same position are equal. */
  lemma PosDistinct(a: nat, b: nat, n: nat)
    requires n >= 2 && a <= b < a + (n - 1)
    requires Pos(a, n) == Pos(b, n)
    ensures a == b
  {
    PosIsMod(a, n);
    PosIsMod(b, n);
    SameRemainder(a, b, n - 1);
  }

  lemma SameRemainder(a: nat, b: nat, m: nat)
    requires m > 0 && a <= b < a + m && a % m == b % m
    ensures a == b
  {
    var q, q' := a / m, b / m;
    assert a == m * q + a % m && b == m * q' + b % m;
    if q < q' { MulMonotone(m, q, q'); } else if q' < q { MulMonotone(m, q', q); }
  }

  lemma {:induction false} PosWraps(k: nat, n: nat)
    requires n >= 2
    ensures Pos(k + (n - 1), n) == Pos(k, n)
  {
    if k == 0 { PosFirstLap(n - 2, n); } else { PosWraps(k - 1, n); }
  }

  lemma {:induction false} PosFirstLap(k: nat, n: nat)
    requires n >= 2 && k <= n - 2
    ensures Pos(k, n) == 1 + k
  {
    if k > 0 { PosFirstLap(k - 1, n); }
  }

  /** Going back from any index by its distance to position 1. */
  lemma {:induction false} PosBack(k: nat, n: nat)
    requires n >= 2
    ensures Pos(k, n) - 1 <= k && Pos(k - (Pos(k, n) - 1), n) == 1
  {
    if k > 0 && Pos(k, n) != 1 { PosBack(k - 1, n); }
  }

  // ---- the invariant ----------------------------------------------------------

  /** The unwrapped write pointer. */
  function W(s: State): nat {
    s.h.base + |s.h.published|
  }

  /** The unwrapped index of the record the sink is at. */
  function Reading(s: State): nat {
    s.h.base + s.h.start + |s.h.emitted|
  }

  predicate Holds(slot: Slot, f: Frame) {
    slot.time == f.time && slot.busLen == f.busLen && slot.id == f.id && |slot.data| == 8 && Take(slot.data, f.busLen % 16) == f.data
  }

  predicate Initialising(pc: SourcePc) {
    pc.SrcLoadW? || pc.SrcStoreW? || pc.SrcLoadR? || pc.SrcCas?
  }

  /** Pointers stand for their unwrapped indices; at most n - 2 records are occupied. */
  predicate PointersOk(s: State) {
    var n := |s.mem.slots|;
    && n >= 2 && s.mem.wp != n
    && (InRange(s.mem.wp, n) ==> s.mem.wp == Pos(W(s), n))
    && (InRange(s.mem.rp, n) ==> s.mem.rp == Pos(s.h.r, n) && s.h.r <= W(s) <= s.h.r + n - 2)
    && (!InRange(s.mem.wp, n) ==> s.h.published == [] && s.h.base == n - 1)
    && s.h.base >= n - 1
    && (forall k :: 0 <= k < n ==> |s.mem.slots[k].data| == 8)
    && (forall k :: 0 <= k < |s.h.published| ==> ValidFrame(s.h.published[k]))
  }

  predicate SourceOk(s: State) {
    var n := |s.mem.slots|;
    var pc := s.src.pc;
    && (!Initialising(pc) ==> InRange(s.mem.wp, n) && InRange(s.mem.rp, n))
    && (Initialising(pc) && !InRange(s.mem.rp, n) ==> s.h.published == [])
    && (pc.SrcStoreW? ==> !InRange(s.mem.wp, n))
    && (pc.SrcLoadR? || pc.SrcCas? ==> InRange(s.mem.wp, n))
    && (pc.SrcCas? ==> !InRange(pc.expected, n))
    && (!Initialising(pc) && !pc.SrcIdle? ==> ValidFrame(pc.f))
    && (!Initialising(pc) && !pc.SrcIdle? && !pc.SrcGetW? ==> pc.w == s.mem.wp)
    && s.h.srcStart <= |s.h.published|
    && s.src.frameCount == s.src.dropCount + (|s.h.published| - s.h.srcStart) + (if pc.SrcPublish? then 1 else 0)
  }

  /** The record being filled holds the fields written so far. */
  predicate FillOk(s: State)
    requires PointersOk(s) && SourceOk(s)
  {
    var slot := GetSlot(s.mem, s.mem.wp);
    match s.src.pc
    case SrcBusLen(f, _) => slot.time == f.time
    case SrcId(f, _) => slot.time == f.time && slot.busLen == f.busLen
    case SrcData(f, _) => slot.time == f.time && slot.busLen == f.busLen && slot.id == f.id
    case SrcCheck(f, _) => Holds(slot, f)
    case SrcPublish(f, w, next) => Holds(slot, f) && next == Next(w, |s.mem.slots|) && W(s) + 1 <= s.h.r + |s.mem.slots| - 2
    case _ => true
  }

  /** Every published record not yet passed by the read pointer is intact in its slot. */
  predicate SlotsOk(s: State)
    requires PointersOk(s)
  {
    InRange(s.mem.rp, |s.mem.slots|) ==>
      forall k :: 0 <= k < |s.h.published| && s.h.r <= s.h.base + k ==>
        Holds(s.mem.slots[Pos(s.h.base + k, |s.mem.slots|)], s.h.published[k])
  }

  predicate SinkOk(s: State) {
    var n := |s.mem.slots|;
    var e := s.h.start + |s.h.emitted|;
    n >= 2 &&
    match s.snk
    case SnkLoadW => true
    case SnkStoreR(next) =>
      && next == Pos(s.h.base + s.h.start, n) && s.h.start <= |s.h.published| && s.h.emitted == []
      && (InRange(s.mem.rp, n) ==> s.h.r <= s.h.base + s.h.start)
    case SnkGetR => Started(s) && s.h.r == Reading(s)
    case SnkPoll(r) => Started(s) && s.h.r == Reading(s) && r == s.mem.rp
    case SnkTime(r, w) => AtRecord(s, r, w)
    case SnkBusLen(r, w, t) => AtRecord(s, r, w) && t == s.h.published[e].time
    case SnkId(r, w, t, b) => AtRecord(s, r, w) && t == s.h.published[e].time && b == s.h.published[e].busLen
    case SnkData(r, w, t, b, id) =>
      AtRecord(s, r, w) && t == s.h.published[e].time && b == s.h.published[e].busLen && id == s.h.published[e].id
    case SnkAdvance(r, w) =>
      && Started(s) && s.h.r + 1 == Reading(s) && r == Pos(Reading(s), n)
      && e <= s.h.seen <= |s.h.published| && w == Pos(s.h.base + s.h.seen, n)
  }

  /** The sink owns a valid read pointer and has emitted a segment of what was published. */
  predicate Started(s: State) {
    var n := |s.mem.slots|;
    && InRange(s.mem.rp, n)
    && s.h.start + |s.h.emitted| <= |s.h.published|
    && s.h.emitted == s.h.published[s.h.start..s.h.start + |s.h.emitted|]
  }

  /** The sink stands at a published record that is still in the ring. */
  predicate AtRecord(s: State, r: nat, w: nat) {
    var n := |s.mem.slots|;
    && n >= 2 && Started(s) && s.h.r == Reading(s) && r == Pos(Reading(s), n)
    && s.h.start + |s.h.emitted| < s.h.seen <= |s.h.published| && w == Pos(s.h.base + s.h.seen, n)
  }

  predicate Inv(s: State) {
    PointersOk(s) && SourceOk(s) && FillOk(s) && SlotsOk(s) && SinkOk(s)
  }

  // ---- every step keeps the invariant -------------------------------------------

  lemma SinkFrame(s: State, t: State)
    requires SinkOk(s) && t.snk == s.snk && t.h == s.h.(srcStart := t.h.srcStart) && t.mem.rp == s.mem.rp && |t.mem.slots| == |s.mem.slots|
    ensures SinkOk(t)
  {
  }

  /** What concerns memory and history alone. */
  lemma MemFrame(s: State, t: State)
    requires PointersOk(s) && SlotsOk(s) && t.mem == s.mem && t.h == s.h
    ensures PointersOk(t) && SlotsOk(t)
  {
  }

  lemma SourceFrame(s: State, t: State)
    requires PointersOk(s) && SourceOk(s) && FillOk(s) && SlotsOk(s)
    requires t.mem == s.mem && t.src == s.src
    requires t.h == s.h.(start := t.h.start, emitted := t.h.emitted, seen := t.h.seen)
    ensures PointersOk(t) && SourceOk(t) && FillOk(t) && SlotsOk(t)
  {
  }

  /** Moving the read pointer forward, but not past the write pointer, keeps the source's view sound. */
  lemma ReaderMoves(s: State, t: State)
    requires PointersOk(s) && SourceOk(s) && FillOk(s) && SlotsOk(s)
    requires t.src == s.src && t.mem == s.mem.(rp := t.mem.rp) && t.h == s.h.(r := t.h.r)
    requires InRange(t.mem.rp, |t.mem.slots|) && t.mem.rp == Pos(t.h.r, |t.mem.slots|) && t.h.r <= W(s)
    requires if InRange(s.mem.rp, |s.mem.slots|) then s.h.r <= t.h.r else Initialising(s.src.pc) && t.h.r <= W(s) <= t.h.r + |s.mem.slots| - 2
    ensures PointersOk(t) && SourceOk(t) && FillOk(t) && SlotsOk(t)
  {
    ReaderMovesPointers(s, t);
  }

  lemma ReaderMovesPointers(s: State, t: State)
    requires PointersOk(s)
    requires t.mem == s.mem.(rp := t.mem.rp) && t.h == s.h.(r := t.h.r)
    requires InRange(t.mem.rp, |t.mem.slots|) && t.mem.rp == Pos(t.h.r, |t.mem.slots|)
    requires t.h.r <= W(s) <= t.h.r + |s.mem.slots| - 2
    ensures PointersOk(t)
  {
  }

  lemma InitLoadWKeeps(s: State)
    requires Inv(s) && s.src.pc.SrcLoadW?
    ensures Inv(SourceStepFn(s))
  {
    SinkFrame(s, SourceStepFn(s));
  }

  lemma InitLoadRKeeps(s: State)
    requires Inv(s) && s.src.pc.SrcLoadR?
    ensures Inv(SourceStepFn(s))
  {
    SinkFrame(s, SourceStepFn(s));
  }

  lemma InitStoreKeeps(s: State)
    requires Inv(s) && s.src.pc.SrcStoreW?
    ensures Inv(SourceStepFn(s))
  {
    PosWraps(0, |s.mem.slots|);
    SinkFrame(s, SourceStepFn(s));
  }

  /** Only a missing read pointer is exchanged, and only before anything is published. */
  lemma ExchangeKeeps(s: State)
    requires Inv(s) && s.src.pc.SrcCas? && s.mem.rp == s.src.pc.expected
    ensures var t := s.(mem := s.mem.(rp := 1), h := s.h.(r := UnwrapOne(s, |s.mem.slots|)));
            PointersOk(t) && SourceOk(t) && FillOk(t) && SlotsOk(t) && SinkOk(t)
  {
    var t := s.(mem := s.mem.(rp := 1), h := s.h.(r := UnwrapOne(s, |s.mem.slots|)));
    PosBack(s.h.base, |s.mem.slots|);
    ReaderMoves(s, t);
  }

  lemma InitCasKeeps(s: State)
    requires Inv(s) && s.src.pc.SrcCas?
    ensures Inv(SourceStepFn(s))
  {
    if s.mem.rp == s.src.pc.expected {
      var t := s.(mem := s.mem.(rp := 1), h := s.h.(r := UnwrapOne(s, |s.mem.slots|)));
      ExchangeKeeps(s);
      MemFrame(t, SourceStepFn(s));
      SinkFrame(t, SourceStepFn(s));
    } else {
      MemFrame(s, SourceStepFn(s));
      SinkFrame(s, SourceStepFn(s));
    }
  }

  /** Writing the record at the write pointer disturbs nothing the sink may read. */
  lemma FillKeepsSlots(s: State, slot: Slot)
    requires PointersOk(s) && SlotsOk(s) && InRange(s.mem.wp, |s.mem.slots|) && InRange(s.mem.rp, |s.mem.slots|)
    requires |slot.data| == 8
    ensures var t := s.(mem := SetSlot(s.mem, s.mem.wp, slot)); PointersOk(t) && SlotsOk(t)
  {
    var n := |s.mem.slots|;
    var t := s.(mem := SetSlot(s.mem, s.mem.wp, slot));
    forall k | 0 <= k < |s.h.published| && s.h.r <= s.h.base + k
      ensures Holds(t.mem.slots[Pos(s.h.base + k, n)], s.h.published[k])
    {
      OtherSlotKept(s, slot, k);
    }
  }

  /** A published record that can still be read is not the one being filled. */
  lemma OtherSlotKept(s: State, slot: Slot, k: nat)
    requires PointersOk(s) && SlotsOk(s) && InRange(s.mem.wp, |s.mem.slots|) && InRange(s.mem.rp, |s.mem.slots|)
    requires k < |s.h.published| && s.h.r <= s.h.base + k
    ensures var n := |s.mem.slots|;
            Holds(SetSlot(s.mem, s.mem.wp, slot).slots[Pos(s.h.base + k, n)], s.h.published[k])
  {
    if Pos(s.h.base + k, |s.mem.slots|) == s.mem.wp {
      PosDistinct(s.h.base + k, W(s), |s.mem.slots|);
    }
  }

  /** Storing one field of the record being filled. */
  lemma FillFrame(s: State, slot: Slot, pc: SourcePc)
    requires Inv(s) && Filling(s.src.pc) && Filling(pc) && pc.f == s.src.pc.f && pc.w == s.src.pc.w
    requires |slot.data| == 8
    ensures var t := WithPc(s.(mem := SetSlot(s.mem, s.mem.wp, slot)), pc);
            PointersOk(t) && SourceOk(t) && SlotsOk(t) && SinkOk(t)
  {
    var filled := s.(mem := SetSlot(s.mem, s.mem.wp, slot));
    FillKeepsSlots(s, slot);
    MemFrame(filled, WithPc(filled, pc));
    FillKeepsSource(s, filled, pc);
  }

  lemma FillKeepsSource(s: State, filled: State, pc: SourcePc)
    requires SourceOk(s) && SinkOk(s) && Filling(s.src.pc) && Filling(pc) && pc.f == s.src.pc.f && pc.w == s.src.pc.w
    requires filled == s.(mem := filled.mem) && |filled.mem.slots| == |s.mem.slots|
    requires filled.mem.wp == s.mem.wp && filled.mem.rp == s.mem.rp
    ensures SourceOk(WithPc(filled, pc)) && SinkOk(WithPc(filled, pc))
  {
    SinkFrame(s, WithPc(filled, pc));
  }

  predicate Filling(pc: SourcePc) {
    pc.SrcTime? || pc.SrcBusLen? || pc.SrcId? || pc.SrcData? || pc.SrcCheck?
  }

  lemma FillTimeKeeps(s: State)
    requires Inv(s) && s.src.pc.SrcTime?
    ensures Inv(SourceStepFn(s))
  {
    var f, w := s.src.pc.f, s.src.pc.w;
    FillFrame(s, GetSlot(s.mem, w).(time := f.time), SrcBusLen(f, w));
  }

  lemma FillBusLenKeeps(s: State)
    requires Inv(s) && s.src.pc.SrcBusLen?
    ensures Inv(SourceStepFn(s))
  {
    var f, w := s.src.pc.f, s.src.pc.w;
    FillFrame(s, GetSlot(s.mem, w).(busLen := f.busLen), SrcId(f, w));
  }

  lemma FillIdKeeps(s: State)
    requires Inv(s) && s.src.pc.SrcId?
    ensures Inv(SourceStepFn(s))
  {
    var f, w := s.src.pc.f, s.src.pc.w;
    FillFrame(s, GetSlot(s.mem, w).(id := f.id), SrcData(f, w));
  }

  lemma FillDataKeeps(s: State)
    requires Inv(s) && s.src.pc.SrcData?
    ensures Inv(SourceStepFn(s))
  {
    var f, w := s.src.pc.f, s.src.pc.w;
    var slot := GetSlot(s.mem, w);
    var data := f.data + slot.data[|f.data|..];
    assert data[..|f.data|] == f.data;
    FillFrame(s, slot.(data := data), SrcCheck(f, w));
  }

  lemma DropKeeps(s: State)
    requires Inv(s) && s.src.pc.SrcCheck? && Next(s.src.pc.w, |s.mem.slots|) == s.mem.rp
    ensures Inv(SourceStepFn(s))
  {
    MemFrame(s, SourceStepFn(s));
    SinkFrame(s, SourceStepFn(s));
  }

  /** Going on to publish leaves one record free even after the store. */
  lemma RoomAhead(s: State)
    requires PointersOk(s) && InRange(s.mem.wp, |s.mem.slots|) && InRange(s.mem.rp, |s.mem.slots|)
    requires Next(s.mem.wp, |s.mem.slots|) != s.mem.rp
    ensures W(s) + 1 <= s.h.r + |s.mem.slots| - 2
  {
    if W(s) + 1 == s.h.r + (|s.mem.slots| - 1) {
      PosWraps(s.h.r, |s.mem.slots|);
    }
  }

  lemma ProceedKeeps(s: State)
    requires Inv(s) && s.src.pc.SrcCheck? && Next(s.src.pc.w, |s.mem.slots|) != s.mem.rp
    ensures Inv(SourceStepFn(s))
  {
    RoomAhead(s);
    MemFrame(s, SourceStepFn(s));
    SinkFrame(s, SourceStepFn(s));
  }

  lemma GetWKeeps(s: State)
    requires Inv(s) && (s.src.pc.SrcIdle? || s.src.pc.SrcGetW?)
    ensures Inv(SourceStepFn(s))
  {
    MemFrame(s, SourceStepFn(s));
    SinkFrame(s, SourceStepFn(s));
  }

  /** Publishing appends to the history; what was emitted is still a segment of it. */
  lemma SinkGrows(s: State, t: State, f: Frame)
    requires SinkOk(s) && t.snk == s.snk && t.mem.rp == s.mem.rp && |t.mem.slots| == |s.mem.slots|
    requires t.h == s.h.(published := s.h.published + [f])
    ensures SinkOk(t)
  {
    assert s.h.start + |s.h.emitted| <= |s.h.published| ==>
      t.h.published[s.h.start..s.h.start + |s.h.emitted|] == s.h.published[s.h.start..s.h.start + |s.h.emitted|];
  }

  lemma PublishKeepsPointers(s: State)
    requires PointersOk(s) && SourceOk(s) && FillOk(s) && s.src.pc.SrcPublish?
    ensures PointersOk(SourceStepFn(s))
  {
    assert Pos(W(s) + 1, |s.mem.slots|) == Next(Pos(W(s), |s.mem.slots|), |s.mem.slots|);
  }

  lemma PublishKeepsSlots(s: State, t: State)
    requires PointersOk(s) && SourceOk(s) && FillOk(s) && SlotsOk(s) && s.src.pc.SrcPublish?
    requires PointersOk(t) && t.mem.slots == s.mem.slots && t.mem.rp == s.mem.rp
    requires t.h == s.h.(published := s.h.published + [s.src.pc.f])
    ensures SlotsOk(t)
  {
    var n := |s.mem.slots|;
    forall k | 0 <= k < |t.h.published| && t.h.r <= t.h.base + k
      ensures Holds(t.mem.slots[Pos(t.h.base + k, n)], t.h.published[k])
    {
      PublishedSlot(s, k);
    }
  }

  /** The record published, or one that was there before, holds its frame. */
  lemma PublishedSlot(s: State, k: nat)
    requires PointersOk(s) && SourceOk(s) && FillOk(s) && SlotsOk(s) && s.src.pc.SrcPublish?
    requires k <= |s.h.published| && s.h.r <= s.h.base + k
    ensures Holds(s.mem.slots[Pos(s.h.base + k, |s.mem.slots|)], (s.h.published + [s.src.pc.f])[k])
  {
    if k == |s.h.published| {
      assert Pos(s.h.base + k, |s.mem.slots|) == s.mem.wp;
    } else {
      assert Holds(s.mem.slots[Pos(s.h.base + k, |s.mem.slots|)], s.h.published[k]);
    }
  }

  lemma PublishKeeps(s: State)
    requires Inv(s) && s.src.pc.SrcPublish?
    ensures Inv(SourceStepFn(s))
  {
    PublishKeepsPointers(s);
    PublishKeepsSlots(s, SourceStepFn(s));
    SinkGrows(s, SourceStepFn(s), s.src.pc.f);
  }

  lemma SinkLoadWKeeps(s: State)
    requires Inv(s) && s.snk.SnkLoadW?
    ensures Inv(SinkStepFn(s))
  {
    PosWraps(0, |s.mem.slots|);
    SourceFrame(s, SinkStepFn(s));
  }

  lemma SinkGetRKeeps(s: State)
    requires Inv(s) && s.snk.SnkGetR?
    ensures Inv(SinkStepFn(s))
  {
    SourceFrame(s, SinkStepFn(s));
  }

  /** The sink only goes on to read when something unread is published. */
  lemma SinkPollOk(s: State)
    requires PointersOk(s) && SinkOk(s) && s.snk.SnkPoll?
    ensures SinkOk(SinkStepFn(s))
  {
  }

  lemma SinkPollKeeps(s: State)
    requires Inv(s) && s.snk.SnkPoll?
    ensures Inv(SinkStepFn(s))
  {
    SinkPollOk(s);
    SourceFrame(s, SinkStepFn(s));
  }

  lemma SinkStoreKeeps(s: State)
    requires Inv(s) && s.snk.SnkStoreR?
    ensures Inv(SinkStepFn(s))
  {
    ReaderMoves(s, SinkStepFn(s));
  }

  lemma SinkAdvanceKeeps(s: State)
    requires Inv(s) && s.snk.SnkAdvance?
    ensures Inv(SinkStepFn(s))
  {
    ReaderMoves(s, SinkStepFn(s));
    SinkAdvances(s);
  }

  /** Behind a record the sink stands at the next one, or has caught up. */
  lemma SinkAdvances(s: State)
    requires PointersOk(s) && SinkOk(s) && s.snk.SnkAdvance?
    ensures SinkOk(SinkStepFn(s))
  {
    CaughtUp(Reading(s), s.h.base + s.h.seen, |s.mem.slots|, W(s), s.h.r);
  }

  lemma CaughtUp(reading: nat, seen: nat, n: nat, w: nat, r: nat)
    requires n >= 2 && reading <= seen <= w <= r + n - 2 && r + 1 == reading
    ensures Pos(reading, n) == Pos(seen, n) <==> reading == seen
  {
    if Pos(reading, n) == Pos(seen, n) { PosDistinct(reading, seen, n); }
  }

  /** The record under the sink is intact. */
  lemma RecordIntact(s: State)
    requires Inv(s) && AtRecord(s, Pos(Reading(s), |s.mem.slots|), Pos(s.h.base + s.h.seen, |s.mem.slots|))
    ensures Holds(GetSlot(s.mem, Pos(Reading(s), |s.mem.slots|)), s.h.published[s.h.start + |s.h.emitted|])
  {
  }

  lemma SinkFieldKeeps(s: State)
    requires SinkOk(s) && (s.snk.SnkTime? || s.snk.SnkBusLen? || s.snk.SnkId?)
    requires Holds(GetSlot(s.mem, s.snk.r), s.h.published[s.h.start + |s.h.emitted|])
    ensures SinkOk(SinkStepFn(s))
  {
  }

  /** The frame put together from four separate loads is the published one. */
  lemma EmitsPublished(s: State)
    requires SinkOk(s) && s.snk.SnkData?
    requires Holds(GetSlot(s.mem, s.snk.r), s.h.published[s.h.start + |s.h.emitted|])
    ensures SinkStepFn(s).h.emitted == s.h.emitted + [s.h.published[s.h.start + |s.h.emitted|]]
  {
  }

  lemma SinkEmitKeeps(s: State)
    requires SinkOk(s) && s.snk.SnkData?
    requires Holds(GetSlot(s.mem, s.snk.r), s.h.published[s.h.start + |s.h.emitted|])
    ensures SinkOk(SinkStepFn(s))
  {
    EmitsPublished(s);
    SegmentGrows(s.h.published, s.h.start, s.h.start + |s.h.emitted|);
    assert Reading(SinkStepFn(s)) == Reading(s) + 1;
  }

  lemma SegmentGrows(p: seq<Frame>, a: nat, b: nat)
    requires a <= b < |p|
    ensures p[a..b + 1] == p[a..b] + [p[b]]
  {
  }

  lemma SinkReadKeeps(s: State)
    requires Inv(s) && (s.snk.SnkTime? || s.snk.SnkBusLen? || s.snk.SnkId? || s.snk.SnkData?)
    ensures Inv(SinkStepFn(s))
  {
    RecordIntact(s);
    SourceFrame(s, SinkStepFn(s));
    if s.snk.SnkData? { SinkEmitKeeps(s); } else { SinkFieldKeeps(s); }
  }

  predicate ValidAction(a: Action) {
    a.FrameArrives? ==> ValidFrame(a.f)
  }

  lemma SourceStepKeeps(s: State)
    requires Inv(s)
    ensures Inv(SourceStepFn(s))
  {
    match s.src.pc {
      case SrcLoadW => InitLoadWKeeps(s);
      case SrcLoadR => InitLoadRKeeps(s);
      case SrcStoreW => InitStoreKeeps(s);
      case SrcCas(_) => InitCasKeeps(s);
      case SrcIdle | SrcGetW(_) => GetWKeeps(s);
      case SrcTime(_, _) => FillTimeKeeps(s);
      case SrcBusLen(_, _) => FillBusLenKeeps(s);
      case SrcId(_, _) => FillIdKeeps(s);
      case SrcData(_, _) => FillDataKeeps(s);
      case SrcCheck(f, w) => if Next(w, |s.mem.slots|) == s.mem.rp { DropKeeps(s); } else { ProceedKeeps(s); }
      case SrcPublish(_, _, _) => PublishKeeps(s);
    }
  }

  lemma SinkStepKeeps(s: State)
    requires Inv(s)
    ensures Inv(SinkStepFn(s))
  {
    match s.snk {
      case SnkLoadW => SinkLoadWKeeps(s);
      case SnkGetR => SinkGetRKeeps(s);
      case SnkPoll(_) => SinkPollKeeps(s);
      case SnkStoreR(_) => SinkStoreKeeps(s);
      case SnkTime(_, _) | SnkBusLen(_, _, _) | SnkId(_, _, _, _) | SnkData(_, _, _, _, _) => SinkReadKeeps(s);
      case SnkAdvance(_, _) => SinkAdvanceKeeps(s);
    }
  }

  lemma ArrivalKeeps(s: State, f: Frame)
    requires Inv(s) && ValidFrame(f)
    ensures Inv(Step(s, FrameArrives(f)))
  {
    SinkFrame(s, Step(s, FrameArrives(f)));
  }

  lemma RingFrame(s: State, t: State)
    requires PointersOk(s) && SlotsOk(s)
    requires t.mem == s.mem && t.h == s.h.(srcStart := t.h.srcStart)
    ensures PointersOk(t) && SlotsOk(t)
  {
  }

  lemma SourceRestartKeeps(s: State)
    requires Inv(s)
    ensures Inv(Step(s, SourceRestart))
  {
    var t := Step(s, SourceRestart);
    RingFrame(s, t);
    SinkFrame(s, t);
  }

  lemma SinkRestartKeeps(s: State)
    requires Inv(s)
    ensures Inv(Step(s, SinkRestart))
  {
    SourceFrame(s, Step(s, SinkRestart));
  }

  lemma StepKeeps(s: State, a: Action)
    requires Inv(s) && ValidAction(a)
    ensures Inv(Step(s, a))
  {
    match a {
      case SourceStep => SourceStepKeeps(s);
      case SinkStep => SinkStepKeeps(s);
      case FrameArrives(f) => ArrivalKeeps(s, f);
      case SourceRestart => SourceRestartKeeps(s);
      case SinkRestart => SinkRestartKeeps(s);
    }
  }

  /** The unwrapped pointers a run starts from. */
  lemma StartWrite(w: nat, n: nat)
    requires n >= 2 && InRange(w, n)
    ensures Pos(w - 1 + (n - 1), n) == w
  {
    PosFirstLap(w - 1, n);
    PosWraps(w - 1, n);
  }

  lemma StartRead(w: nat, rp: nat, n: nat)
    requires n >= 2 && InRange(w, n) && InRange(rp, n)
    ensures var base, r := w - 1 + (n - 1), UnwrapRead(w, rp, n - 1);
            r <= base <= r + n - 2 && Pos(r, n) == rp
  {
    PosFirstLap(rp - 1, n);
    if rp <= w {
      DivModUnique(w - rp, n - 1, 0, w - rp);
      PosWraps(rp - 1, n);
    } else {
      DivModUnique(w - rp, n - 1, -1, w - rp + (n - 1));
    }
  }

  lemma StartPointersOk(mem: Mem)
    requires WellFormed(mem) && mem.wp != |mem.slots|
    ensures PointersOk(Start(mem))
  {
    var w := if InRange(mem.wp, |mem.slots|) then mem.wp else 1;
    StartWrite(w, |mem.slots|);
    if InRange(mem.rp, |mem.slots|) { StartRead(w, mem.rp, |mem.slots|); }
  }

  lemma StartHolds(mem: Mem)
    requires WellFormed(mem) && mem.wp != |mem.slots|
    ensures Inv(Start(mem))
  {
    StartPointersOk(mem);
  }

  predicate WellFormed(mem: Mem) {
    |mem.slots| >= 2 && forall k :: 0 <= k < |mem.slots| ==> |mem.slots[k].data| == 8
  }

  lemma {:induction false} RunKeeps(s: State, actions: seq<Action>)
    requires Inv(s) && forall k :: 0 <= k < |actions| ==> ValidAction(actions[k])
    ensures Inv(Run(s, actions))
    decreases |actions|
  {
    if actions != [] {
      var last := |actions| - 1;
      RunKeeps(s, actions[..last]);
      StepKeeps(Run(s, actions[..last]), actions[last]);
    }
  }

  // ---- the main results ---------------------------------------------------------

  /** The records from ring position `r` up to the write pointer, in order. */
  function RingContents(mem: Mem, r: nat, count: nat): seq<Frame>
    decreases count
  {
    if count == 0 then []
    else
      var slot := GetSlot(mem, r);
      [Frame(slot.time, slot.busLen, slot.id, Take(slot.data, slot.busLen % 16))]
        + RingContents(mem, Next(r, |mem.slots|), count - 1)
  }

  lemma {:induction false} RingHoldsTail(s: State, k: nat)
    requires PointersOk(s) && SlotsOk(s) && InRange(s.mem.rp, |s.mem.slots|)
    requires k <= |s.h.published| && s.h.r <= s.h.base + k
    ensures RingContents(s.mem, Pos(s.h.base + k, |s.mem.slots|), |s.h.published| - k) == s.h.published[k..]
    decreases |s.h.published| - k
  {
    if k < |s.h.published| {
      var n := |s.mem.slots|;
      RingHoldsTail(s, k + 1);
      assert Holds(s.mem.slots[Pos(s.h.base + k, n)], s.h.published[k]);
      assert s.h.published[k..] == [s.h.published[k]] + s.h.published[k + 1..];
    }
  }

  predicate SinkRunning(s: State) {
    !s.snk.SnkLoadW? && !s.snk.SnkStoreR?
  }

  /** What the two processes promise each other and their users, at any moment. */
  predicate Safe(s: State) {
    var n := |s.mem.slots|;
    // the sink has emitted, in order, exactly what was published since it
    // started, except for what the ring still holds
    && (SinkRunning(s) ==>
          && n >= 2 && s.h.start + |s.h.emitted| <= |s.h.published|
          && s.h.published[s.h.start..] ==
               s.h.emitted + RingContents(s.mem, Pos(Reading(s), n), |s.h.published| - s.h.start - |s.h.emitted|))
    // the ring never fills its last free record, and the record at the write pointer is not a readable one
    && (!Initialising(s.src.pc) ==>
          n >= 2 && s.h.r <= W(s) <= s.h.r + n - 2 && s.mem.rp == Pos(s.h.r, n) && s.mem.wp == Pos(W(s), n)
          && forall k: nat :: s.h.r <= k < W(s) ==> Pos(k, n) != s.mem.wp)
    // every received frame was dropped or published
    && s.src.frameCount == s.src.dropCount + (|s.h.published| - s.h.srcStart) + (if s.src.pc.SrcPublish? then 1 else 0)
  }

  lemma SinkSegment(s: State)
    requires SinkOk(s) && SinkRunning(s)
    ensures Started(s) && s.h.r <= Reading(s)
  {
  }

  lemma RingHoldsRest(s: State)
    requires PointersOk(s) && SlotsOk(s) && Started(s) && s.h.r <= Reading(s)
    ensures s.h.start + |s.h.emitted| <= |s.h.published|
    ensures s.h.published[s.h.start..] == s.h.emitted
              + RingContents(s.mem, Pos(Reading(s), |s.mem.slots|), |s.h.published| - s.h.start - |s.h.emitted|)
  {
    RestInRing(s);
    EmittedThenRest(s.h.published, s.h.emitted, s.h.start);
  }

  lemma RestInRing(s: State)
    requires PointersOk(s) && SlotsOk(s) && Started(s) && s.h.r <= Reading(s)
    ensures RingContents(s.mem, Pos(Reading(s), |s.mem.slots|), |s.h.published| - s.h.start - |s.h.emitted|)
         == s.h.published[s.h.start + |s.h.emitted|..]
  {
    RingHoldsTail(s, s.h.start + |s.h.emitted|);
  }

  lemma EmittedThenRest(p: seq<Frame>, emitted: seq<Frame>, a: nat)
    requires a + |emitted| <= |p| && emitted == p[a..a + |emitted|]
    ensures p[a..] == emitted + p[a + |emitted|..]
  {
    SplitTail(p, a, a + |emitted|);
  }

  lemma SplitTail(p: seq<Frame>, a: nat, b: nat)
    requires a <= b <= |p|
    ensures p[a..] == p[a..b] + p[b..]
  {
  }

  lemma WriterSlotFree(s: State)
    requires PointersOk(s) && InRange(s.mem.wp, |s.mem.slots|) && InRange(s.mem.rp, |s.mem.slots|)
    ensures forall k: nat :: s.h.r <= k < W(s) ==> Pos(k, |s.mem.slots|) != s.mem.wp
  {
    forall k: nat | s.h.r <= k < W(s) ensures Pos(k, |s.mem.slots|) != s.mem.wp {
      if Pos(k, |s.mem.slots|) == s.mem.wp { PosDistinct(k, W(s), |s.mem.slots|); }
    }
  }

  lemma InvIsSafe(s: State)
    requires Inv(s)
    ensures Safe(s)
  {
    if SinkRunning(s) { SinkSegment(s); RingHoldsRest(s); }
    if !Initialising(s.src.pc) { WriterSlotFree(s); }
  }

  /** From a write pointer equal to the ring size, a sink that starts first emits
      a record that nobody published: its range check lets that value through. */
  lemma PointerAtEndEmitsJunk(mem: Mem)
    requires |mem.slots| >= 2 && mem.wp == |mem.slots|
    ensures var s := Run(Start(mem), seq(8, _ => SinkStep));
            SinkRunning(s) && s.h.published == [] && |s.h.emitted| == 1
  {
    var s0 := Start(mem);
    SinkStepsUnfold(s0, 7);
    SinkStepsUnfold(s0, 6);
    SinkStepsUnfold(s0, 5);
    SinkStepsUnfold(s0, 4);
    SinkStepsUnfold(s0, 3);
    SinkStepsUnfold(s0, 2);
    SinkStepsUnfold(s0, 1);
    SinkStepsUnfold(s0, 0);
  }

  lemma SinkStepsUnfold(s: State, k: nat)
    ensures Run(s, seq(k + 1, _ => SinkStep)) == SinkStepFn(Run(s, seq(k, _ => SinkStep)))
  {
    var actions := seq(k + 1, _ => SinkStep);
    assert actions[..k] == seq(k, _ => SinkStep);
  }

  predicate ValidActions(actions: seq<Action>) {
    forall k :: 0 <= k < |actions| ==> ValidAction(actions[k])
  }

  /** Every interleaving, with any number of restarts of either process, is safe
      from any initial memory, zeroed memory included, except one whose write
      pointer equals the ring size. */
  lemma RingIsSafe(mem: Mem)
    requires WellFormed(mem)
    ensures (forall actions :: ValidActions(actions) ==> Safe(Run(Start(mem), actions))) <==> mem.wp != |mem.slots|
  {
    if mem.wp != |mem.slots| {
      forall actions | ValidActions(actions) ensures Safe(Run(Start(mem), actions)) {
        StartHolds(mem);
        RunKeeps(Start(mem), actions);
        InvIsSafe(Run(Start(mem), actions));
      }
    } else {
      PointerAtEndEmitsJunk(mem);
      var actions := seq(8, _ => SinkStep);
      assert ValidActions(actions) && !Safe(Run(Start(mem), actions));
    }
  }
}
