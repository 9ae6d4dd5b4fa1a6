/** The ring in shared memory, with the source's and the sink's calls each run
    without interruption: a bounded queue that ends up in the log file. */
module CanShared {
  import opened CanRing
  import opened CanLog

  /** Record `r + k` holds frame `k` of the queue. */
  predicate QueuedAt(slots: seq<Slot>, r: nat, contents: seq<Frame>, k: nat)
    requires |slots| >= 2 && k < |contents|
  {
    ValidFrame(contents[k]) && Holds(slots[Pos(r + k, |slots|)], contents[k])
  }

  /** A queue in the ring, its first frame at the unwrapped index `r`. */
  predicate Queued(slots: seq<Slot>, r: nat, contents: seq<Frame>)
    requires |slots| >= 2
  {
    && |contents| <= |slots| - 2
    && (forall i :: 0 <= i < |slots| ==> |slots[i].data| == 8)
    && (forall k :: 0 <= k < |contents| ==> QueuedAt(slots, r, contents, k))
  }

  function FrameOf(slot: Slot): Frame {
    Frame(slot.time, slot.busLen, slot.id, Take(slot.data, slot.busLen % 16))
  }

  class Shared {
    const frames: array<Slot>   // record 0 is taken by the pointers
    var readPointer: nat
    var writePointer: nat
    var frameCount: nat
    var dropCount: nat
    ghost var r: nat
    ghost var contents: seq<Frame>

    /** The queue lies between the pointers, one record per frame. */
    ghost predicate Valid()
      reads this, frames
    {
      && frames.Length >= 2 && Queued(frames[..], r, contents)
      && readPointer == Pos(r, frames.Length) && writePointer == Pos(r + |contents|, frames.Length)
    }

    /** Zeroed memory, with both pointers initialised. */
    constructor (n: nat)
      requires n >= 2
      ensures fresh(frames) && frames.Length == n && Valid() && contents == []
      ensures frameCount == dropCount == 0
    {
      frames := new Slot[n](_ => Slot(0, 0, 0, [0, 0, 0, 0, 0, 0, 0, 0]));
      readPointer, writePointer, frameCount, dropCount := 0, 0, 0, 0;
      r, contents := 0, [];
      new;
      if writePointer == 0 || writePointer >= n { writePointer := 1; }
      if readPointer == 0 || readPointer >= n { readPointer := 1; }
    }

    /** Counts a frame, and queues it or, if only one record is free, drops it. */
    method ProcessFrame(f: Frame)
      requires Valid() && ValidFrame(f)
      modifies this, frames
      ensures Valid() && r == old(r)
      ensures frameCount == old(frameCount) + 1
      ensures if old(|contents|) < frames.Length - 2
              then contents == old(contents) + [f] && dropCount == old(dropCount)
              else contents == old(contents) && dropCount == old(dropCount) + 1
    {
      var n, w := frames.Length, writePointer;
      ghost var before := frames[..];
      FilledHolds(frames[w].data, f);
      frames[w] := Slot(f.time, f.busLen, f.id, f.data + frames[w].data[|f.data|..]);
      assert frames[..] == before[w := frames[w]];
      Enqueue(before, r, contents, frames[w], f);
      FullOrNot(r, |contents|, n);
      frameCount := frameCount + 1;
      var next := w + 1;
      if next >= n { next := 1; }
      if next == readPointer {
        dropCount := dropCount + 1;
      } else {
        writePointer := next;
        contents := contents + [f];
      }
    }

    /** Writes everything queued to the log. */
    method Drain(sink: Sink)
      requires Valid() && sink.lastWriteMillis < TWO_64
      modifies this`readPointer, this`r, this`contents, sink
      ensures Valid() && contents == []
      ensures sink.lastWriteMillis < TWO_64
      ensures sink.output == old(sink.output) + EncodeAll(old(contents), old(sink.lastWriteMillis))
    {
      ghost var all, base, first := contents, sink.output, sink.lastWriteMillis;
      while readPointer != writePointer
        invariant Valid() && sink.lastWriteMillis < TWO_64
        invariant sink.output + EncodeAll(contents, sink.lastWriteMillis) == base + EncodeAll(all, first)
        decreases |contents|
      {
        DrainOne(sink);
      }
      EmptyWhenLevel(r, |contents|, frames.Length);
    }

    /** Writes the oldest frame and frees its record. */
    method DrainOne(sink: Sink)
      requires Valid() && sink.lastWriteMillis < TWO_64 && readPointer != writePointer
      modifies this`readPointer, this`r, this`contents, sink
      ensures Valid() && old(contents) != [] && contents == old(contents)[1..]
      ensures sink.lastWriteMillis < TWO_64
      ensures sink.output + EncodeAll(contents, sink.lastWriteMillis)
           == old(sink.output) + EncodeAll(old(contents), old(sink.lastWriteMillis))
    {
      var f := OldestRecord();
      EncodeFirst(sink.output, contents, sink.lastWriteMillis);
      sink.WriteRecord(f);
      AdvanceReadPointer();
    }

    method OldestRecord() returns (f: Frame)
      requires Valid() && readPointer != writePointer
      ensures contents != [] && f == contents[0] && StoredFrame(f)
    {
      EmptyWhenLevel(r, |contents|, frames.Length);
      Dequeue(frames[..], r, contents);
      f := FrameOf(frames[readPointer]);
    }

    method AdvanceReadPointer()
      requires Valid() && contents != []
      modifies this`readPointer, this`r, this`contents
      ensures Valid() && contents == old(contents)[1..]
    {
      Dequeue(frames[..], r, contents);
      readPointer := readPointer + 1;
      if readPointer >= frames.Length { readPointer := 1; }
      contents := contents[1..];
      r := r + 1;
    }
  }

  lemma EncodeFirst(output: seq<nat>, frames: seq<Frame>, last: nat)
    requires frames != []
    ensures var time := Max(frames[0].time, last);
            (output + EncodeRecord(frames[0], time - last)) + EncodeAll(frames[1..], time) == output + EncodeAll(frames, last)
  {
  }

  /** The record at the write pointer holds no queued frame. */
  lemma FreeRecord(r: nat, k: nat, count: nat, n: nat)
    requires n >= 2 && k < count <= n - 2
    ensures Pos(r + k, n) != Pos(r + count, n)
  {
    if Pos(r + k, n) == Pos(r + count, n) { PosDistinct(r + k, r + count, n); }
  }

  /** Filling the record at the write pointer changes no queued frame. */
  lemma Enqueue(slots: seq<Slot>, r: nat, contents: seq<Frame>, slot: Slot, f: Frame)
    requires |slots| >= 2 && Queued(slots, r, contents) && Holds(slot, f) && ValidFrame(f)
    ensures var filled := slots[Pos(r + |contents|, |slots|) := slot];
            && Queued(filled, r, contents)
            && (|contents| < |slots| - 2 ==> Queued(filled, r, contents + [f]))
  {
    var n := |slots|;
    var filled := slots[Pos(r + |contents|, n) := slot];
    forall k | 0 <= k < |contents| ensures QueuedAt(filled, r, contents, k) {
      assert QueuedAt(slots, r, contents, k);
      FreeRecord(r, k, |contents|, n);
    }
    var more := contents + [f];
    forall k | 0 <= k < |more| ensures QueuedAt(filled, r, more, k) {
      if k < |contents| { assert QueuedAt(filled, r, contents, k); }
    }
  }

  lemma Dequeue(slots: seq<Slot>, r: nat, contents: seq<Frame>)
    requires |slots| >= 2 && Queued(slots, r, contents) && contents != []
    ensures Queued(slots, r + 1, contents[1..])
    ensures FrameOf(slots[Pos(r, |slots|)]) == contents[0] && StoredFrame(contents[0])
  {
    assert QueuedAt(slots, r, contents, 0);
    var rest, next := contents[1..], r + 1;
    forall k | 0 <= k < |rest| ensures QueuedAt(slots, next, rest, k) {
      assert QueuedAt(slots, r, contents, k + 1);
    }
  }

  /** The write pointer can advance exactly if another record is free. */
  lemma FullOrNot(r: nat, count: nat, n: nat)
    requires n >= 2 && count <= n - 2
    ensures Pos(r + count + 1, n) == Pos(r, n) <==> count == n - 2
  {
    if count == n - 2 {
      PosWraps(r, n);
    } else if Pos(r + count + 1, n) == Pos(r, n) {
      PosDistinct(r, r + count + 1, n);
    }
  }

  lemma EmptyWhenLevel(r: nat, count: nat, n: nat)
    requires n >= 2 && count <= n - 2
    ensures Pos(r, n) == Pos(r + count, n) <==> count == 0
  {
    if Pos(r, n) == Pos(r + count, n) { PosDistinct(r, r + count, n); }
  }

  lemma FilledHolds(data: seq<nat>, f: Frame)
    requires |data| == 8 && ValidFrame(f)
    ensures Holds(Slot(f.time, f.busLen, f.id, f.data + data[|f.data|..]), f)
  {
  }
}
