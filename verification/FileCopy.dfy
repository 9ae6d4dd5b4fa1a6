/** Copying the missing end of a file through a reader thread and a one-block slot. */
module FileCopy {
  import opened BitCodec
  import opened Sequences
  import opened Wrappers

  datatype Block = Block(pos: nat, data: seq<byte>)

  /** The file to copy, where to start, and the size of a full block. */
  datatype Source = Source(content: seq<byte>, start: nat, size: nat)

  predicate ValidSource(src: Source) {
    src.size > 0
  }

  /** What is read at a position: a full block, less at the end, nothing behind it. */
  function ReadAt(src: Source, pos: nat): (data: seq<byte>)
    ensures pos >= |src.content| ==> data == []
    ensures ValidSource(src) && pos < |src.content| ==> data != [] && pos + |data| <= |src.content|
  {
    if pos >= |src.content| then [] else src.content[pos..Min(pos + src.size, |src.content|)]
  }

  function Remaining(src: Source, pos: nat): nat {
    if pos >= |src.content| then 0 else |src.content| - pos
  }

  /** The blocks from a position on, with the empty one that ends them. */
  function Blocks(src: Source, pos: nat): (r: seq<Block>)
    requires ValidSource(src)
    ensures |r| >= 1
    decreases Remaining(src, pos)
  {
    if pos >= |src.content| then [Block(pos, [])]
    else [Block(pos, ReadAt(src, pos))] + Blocks(src, pos + |ReadAt(src, pos)|)
  }

  // ---- reader thread and copying loop -------------------------------------------------

  datatype Reader = Opening | Reading(pos: nat) | Offering(block: Block) | Ended

  datatype Copier = Getting | Writing(block: Block) | Closing | Finished

  /** `slot` and `error` are the fields guarded by the lock, `stopped` is the
      cleared file name. History: the blocks handed over, how far the
      destination was written, and whether anything failed. */
  datatype Copy = Copy(reader: Reader, copier: Copier, slot: Option<Block>, error: bool, stopped: bool,
                       dest: seq<byte>, taken: seq<Block>, written: nat, failed: bool)

  /** One step of either thread; `ok` is false where the file system fails. */
  datatype Act = ReaderOpens(ok: bool) | ReaderReads(ok: bool) | ReaderOffers
               | CopierGets | CopierWrites(ok: bool) | CopierStops

  function Start(src: Source, dest: seq<byte>): Copy {
    Copy(Opening, Getting, None, false, false, dest, [], src.start, false)
  }

  predicate Enabled(c: Copy, a: Act) {
    match a
    case ReaderOpens(_) => c.reader.Opening?
    case ReaderReads(_) => c.reader.Reading?
    case ReaderOffers => c.reader.Offering? && (c.slot.None? || c.stopped)
    case CopierGets => c.copier.Getting? && (c.slot.Some? || c.error)
    case CopierWrites(_) => c.copier.Writing?
    case CopierStops => c.copier.Closing?
  }

  /** Seeking and writing: bytes skipped over read as zeros. */
  function WriteAt(dest: seq<byte>, pos: nat, data: seq<byte>): (r: seq<byte>)
    ensures pos <= |dest| ==> |r| == if pos + |data| <= |dest| then |dest| else pos + |data|
  {
    var padded := if pos <= |dest| then dest else dest + seq(pos - |dest|, _ => 0);
    padded[..pos] + data + if pos + |data| <= |dest| then dest[pos + |data|..] else []
  }

  function Step(src: Source, c: Copy, a: Act): Copy
    requires Enabled(c, a)
  {
    match a
    case ReaderOpens(ok) =>
      if ok && !c.stopped then c.(reader := Reading(src.start)) else c.(reader := Ended, error := true, failed := true)
    case ReaderReads(ok) =>
      if ok then c.(reader := Offering(Block(c.reader.pos, ReadAt(src, c.reader.pos))))
      else c.(reader := Ended, error := true, failed := true)
    case ReaderOffers =>
      if c.stopped then c.(reader := Ended)
      else
        var b := c.reader.block;
        c.(slot := Some(b), reader := if b.data == [] then Ended else Reading(b.pos + |b.data|))
    case CopierGets =>
      if c.error then c.(copier := Closing)
      else
        var b := c.slot.value;
        c.(slot := None, taken := c.taken + [b], copier := if b.data == [] then Closing else Writing(b))
    case CopierWrites(ok) =>
      var b := c.copier.block;
      if ok then c.(dest := WriteAt(c.dest, b.pos, b.data), written := b.pos + |b.data|, copier := Getting)
      else c.(copier := Closing, failed := true)
    case CopierStops =>
      c.(stopped := true, copier := Finished)
  }

  predicate Valid(src: Source, c: Copy, acts: seq<Act>)
    decreases |acts|
  {
    acts == [] || (Enabled(c, acts[0]) && Valid(src, Step(src, c, acts[0]), acts[1..]))
  }

  function After(src: Source, c: Copy, acts: seq<Act>): Copy
    requires Valid(src, c, acts)
    decreases |acts|
  {
    if acts == [] then c else After(src, Step(src, c, acts[0]), acts[1..])
  }

  // ---- what every step keeps ----------------------------------------------------------

  /** Where the blocks handed over end. */
  function TakenTo(src: Source, taken: seq<Block>): nat {
    if taken == [] then src.start
    else var b := taken[|taken| - 1]; b.pos + |b.data|
  }

  predicate EndTaken(taken: seq<Block>) {
    taken != [] && taken[|taken| - 1].data == []
  }

  /** What is still to be handed over follows what was. */
  predicate BlocksInOrder(src: Source, taken: seq<Block>)
    requires ValidSource(src)
  {
    taken + Rest(src, taken) == Blocks(src, src.start)
  }

  /** The blocks to follow those handed over. */
  function Rest(src: Source, taken: seq<Block>): seq<Block>
    requires ValidSource(src)
  {
    if EndTaken(taken) then [] else Blocks(src, TakenTo(src, taken))
  }

  /** The reader is at most one block ahead of the slot, the slot one ahead of the copier. */
  predicate ReaderInStep(src: Source, c: Copy) {
    var at := TakenTo(src, c.taken);
    match c.slot
    case Some(b) =>
      && b == Block(at, ReadAt(src, at)) && !EndTaken(c.taken)
      && (match c.reader
          case Opening => false
          case Reading(p) => p == at + |b.data| && b.data != []
          case Offering(n) => b.data != [] && n == Block(at + |b.data|, ReadAt(src, at + |b.data|))
          case Ended => b.data == [] || c.error || c.stopped)
    case None =>
      match c.reader
      case Opening => c.taken == []
      case Reading(p) => p == at && !EndTaken(c.taken)
      case Offering(n) => n == Block(at, ReadAt(src, at)) && !EndTaken(c.taken)
      case Ended => EndTaken(c.taken) || c.error || c.stopped
  }

  predicate CopierInStep(src: Source, c: Copy) {
    && (c.stopped <==> c.copier.Finished?)
    && (c.error ==> c.failed)
    && (match c.copier
        case Getting => !EndTaken(c.taken) && c.written == TakenTo(src, c.taken)
        case Writing(b) => c.taken != [] && b == c.taken[|c.taken| - 1] && b.data != [] && c.written == b.pos
        case _ => c.failed || (EndTaken(c.taken) && c.written == TakenTo(src, c.taken)))
  }

  predicate Inv(src: Source, c: Copy)
    requires ValidSource(src)
  {
    BlocksInOrder(src, c.taken) && InStep(src, c)
  }

  lemma StartInv(src: Source, dest: seq<byte>)
    requires ValidSource(src)
    ensures Inv(src, Start(src, dest))
  {
  }

  lemma BlocksFirst(src: Source, at: nat)
    requires ValidSource(src)
    ensures var b := Block(at, ReadAt(src, at));
            Blocks(src, at) == if b.data == [] then [b] else [b] + Blocks(src, at + |b.data|)
  {
  }

  lemma Assoc(taken: seq<Block>, b: Block, rest: seq<Block>)
    ensures taken + ([b] + rest) == (taken + [b]) + rest
  {
  }

  lemma TakeInOrder(src: Source, taken: seq<Block>, at: nat)
    requires ValidSource(src) && BlocksInOrder(src, taken) && !EndTaken(taken) && at == TakenTo(src, taken)
    ensures BlocksInOrder(src, taken + [Block(at, ReadAt(src, at))])
  {
    var b := Block(at, ReadAt(src, at));
    RestSnoc(src, taken, b);
    Assoc(taken, b, Rest(src, taken + [b]));
  }

  lemma RestSnoc(src: Source, taken: seq<Block>, b: Block)
    requires ValidSource(src) && !EndTaken(taken) && b == Block(TakenTo(src, taken), ReadAt(src, TakenTo(src, taken)))
    ensures Rest(src, taken) == [b] + Rest(src, taken + [b])
  {
    BlocksFirst(src, b.pos);
    TakenSnoc(src, taken, b);
  }

  lemma TakenSnoc(src: Source, taken: seq<Block>, b: Block)
    ensures TakenTo(src, taken + [b]) == b.pos + |b.data| && (EndTaken(taken + [b]) <==> b.data == [])
  {
  }

  /** The parts of the invariant that do not look at the list of blocks. */
  predicate InStep(src: Source, c: Copy) {
    ReaderInStep(src, c) && CopierInStep(src, c)
  }

  lemma OpensInStep(src: Source, c: Copy, ok: bool)
    requires ValidSource(src) && InStep(src, c) && c.reader.Opening?
    ensures InStep(src, Step(src, c, ReaderOpens(ok)))
  {
  }

  lemma ReadsInStep(src: Source, c: Copy, ok: bool)
    requires ValidSource(src) && InStep(src, c) && c.reader.Reading?
    ensures InStep(src, Step(src, c, ReaderReads(ok)))
  {
  }

  lemma OffersInStep(src: Source, c: Copy)
    requires ValidSource(src) && InStep(src, c) && Enabled(c, ReaderOffers)
    ensures InStep(src, Step(src, c, ReaderOffers))
  {
  }

  lemma GetsInStep(src: Source, c: Copy)
    requires ValidSource(src) && InStep(src, c) && Enabled(c, CopierGets)
    ensures InStep(src, Step(src, c, CopierGets))
    ensures var t := Step(src, c, CopierGets).taken;
            var at := TakenTo(src, c.taken);
            t == c.taken || (!EndTaken(c.taken) && t == c.taken + [Block(at, ReadAt(src, at))])
  {
    if !c.error {
      TakenSnoc(src, c.taken, c.slot.value);
    }
  }

  lemma WritesInStep(src: Source, c: Copy, ok: bool)
    requires ValidSource(src) && InStep(src, c) && c.copier.Writing?
    ensures InStep(src, Step(src, c, CopierWrites(ok)))
  {
  }

  lemma StopsInStep(src: Source, c: Copy)
    requires ValidSource(src) && InStep(src, c) && c.copier.Closing?
    ensures InStep(src, Step(src, c, CopierStops))
  {
  }

  lemma StepKeepsInv(src: Source, c: Copy, a: Act)
    requires ValidSource(src) && Inv(src, c) && Enabled(c, a)
    ensures Inv(src, Step(src, c, a))
  {
    match a
    case ReaderOpens(ok) => OpensInStep(src, c, ok);
    case ReaderReads(ok) => ReadsInStep(src, c, ok);
    case ReaderOffers => OffersInStep(src, c);
    case CopierGets =>
      GetsInStep(src, c);
      if !EndTaken(c.taken) {
        TakeInOrder(src, c.taken, TakenTo(src, c.taken));
      }
    case CopierWrites(ok) => WritesInStep(src, c, ok);
    case CopierStops => StopsInStep(src, c);
  }

  // ---- the destination --------------------------------------------------------------------

  /** The destination holds the part of the source that is not copied. */
  predicate Held(src: Source, before: seq<byte>) {
    src.start <= |before| && src.start <= |src.content| && before[..src.start] == src.content[..src.start]
  }

  /** The destination is the source as far as written, then what was there before. */
  predicate DestCopied(src: Source, c: Copy, before: seq<byte>) {
    && src.start <= c.written <= |src.content|
    && c.dest == src.content[..c.written] + (if c.written < |before| then before[c.written..] else [])
  }

  lemma {:induction false} BlocksAreReads(src: Source, pos: nat, k: nat)
    requires ValidSource(src) && k < |Blocks(src, pos)|
    ensures var b := Blocks(src, pos)[k]; b.data == ReadAt(src, b.pos) && b.pos >= pos
    decreases k
  {
    if k > 0 {
      var next := BlockBehind(src, pos, k);
      BlocksAreReads(src, next, k - 1);
    } else {
      BlocksFirst(src, pos);
    }
  }

  lemma BlockBehind(src: Source, pos: nat, k: nat) returns (next: nat)
    requires ValidSource(src) && 0 < k < |Blocks(src, pos)|
    ensures next > pos && Remaining(src, next) < Remaining(src, pos)
    ensures k - 1 < |Blocks(src, next)| && Blocks(src, pos)[k] == Blocks(src, next)[k - 1]
  {
    var b := Block(pos, ReadAt(src, pos));
    next := pos + |b.data|;
    BlocksFirst(src, pos);
    BehindFirst(b, Blocks(src, next), k);
  }

  lemma BehindFirst(b: Block, rest: seq<Block>, k: nat)
    requires 0 < k <= |rest|
    ensures ([b] + rest)[k] == rest[k - 1]
  {
  }

  lemma WriteCopies(src: Source, c: Copy, before: seq<byte>)
    requires ValidSource(src) && Inv(src, c) && DestCopied(src, c, before) && c.copier.Writing?
    ensures DestCopied(src, Step(src, c, CopierWrites(true)), before)
  {
    TakenAreReads(src, c.taken, |c.taken| - 1);
    WritePrefix(src, c.dest, before, c.copier.block);
  }

  lemma TakenAreReads(src: Source, taken: seq<Block>, k: nat)
    requires ValidSource(src) && BlocksInOrder(src, taken) && k < |taken|
    ensures taken[k].data == ReadAt(src, taken[k].pos)
  {
    assert taken[k] == (taken + Rest(src, taken))[k];
    BlocksAreReads(src, src.start, k);
  }

  lemma WritePrefix(src: Source, dest: seq<byte>, before: seq<byte>, b: Block)
    requires ValidSource(src) && b.pos <= |src.content| && b.data == ReadAt(src, b.pos) && b.data != []
    requires dest == src.content[..b.pos] + (if b.pos < |before| then before[b.pos..] else [])
    ensures var w := b.pos + |b.data|;
            w <= |src.content| && WriteAt(dest, b.pos, b.data) == src.content[..w] + (if w < |before| then before[w..] else [])
  {
    var w := b.pos + |b.data|;
    assert src.content[..w] == src.content[..b.pos] + b.data;
    assert dest[..b.pos] == src.content[..b.pos];
    if w < |before| {
      assert dest[w..] == before[w..];
    }
  }

  lemma StepKeepsDest(src: Source, c: Copy, a: Act, before: seq<byte>)
    requires ValidSource(src) && Inv(src, c) && DestCopied(src, c, before) && Enabled(c, a)
    ensures DestCopied(src, Step(src, c, a), before)
  {
    if a == CopierWrites(true) {
      WriteCopies(src, c, before);
    } else {
      assert Step(src, c, a).dest == c.dest && Step(src, c, a).written == c.written;
    }
  }

  lemma {:induction false} RunKeeps(src: Source, c: Copy, acts: seq<Act>, before: seq<byte>)
    requires ValidSource(src) && Inv(src, c) && Valid(src, c, acts)
    ensures Inv(src, After(src, c, acts))
    ensures DestCopied(src, c, before) ==> DestCopied(src, After(src, c, acts), before)
    decreases |acts|
  {
    if acts != [] {
      StepKeepsInv(src, c, acts[0]);
      if DestCopied(src, c, before) {
        StepKeepsDest(src, c, acts[0], before);
      }
      RunKeeps(src, Step(src, c, acts[0]), acts[1..], before);
    }
  }

  // ---- results ---------------------------------------------------------------------------

  /** Once the empty block was handed over, all blocks were. */
  lemma EndReached(src: Source, taken: seq<Block>)
    requires ValidSource(src) && BlocksInOrder(src, taken) && EndTaken(taken)
    ensures taken == Blocks(src, src.start) && TakenTo(src, taken) >= |src.content|
  {
    assert taken + [] == taken;
    TakenAreReads(src, taken, |taken| - 1);
  }

  /** In every interleaving the blocks handed over are the first blocks from the
      start position, in order; without a failure the copier ends with all of
      them, and the destination is the source followed by its old tail. With a
      failure it is the source up to a point, and as before from there on. */
  lemma CopyIsRight(src: Source, before: seq<byte>, acts: seq<Act>)
    requires ValidSource(src) && Valid(src, Start(src, before), acts)
    ensures var c := After(src, Start(src, before), acts);
            && c.taken <= Blocks(src, src.start)
            && (c.copier.Finished? && !c.failed ==> c.taken == Blocks(src, src.start))
            && (Held(src, before) ==> DestCopied(src, c, before))
            && (Held(src, before) && c.copier.Finished? && !c.failed ==> c.written == |src.content|)
  {
    RunFromStart(src, before, acts);
    var c := After(src, Start(src, before), acts);
    InvResult(src, c);
    if Held(src, before) { WrittenWithin(src, c, before); }
  }

  lemma RunFromStart(src: Source, before: seq<byte>, acts: seq<Act>)
    requires ValidSource(src) && Valid(src, Start(src, before), acts)
    ensures Inv(src, After(src, Start(src, before), acts))
    ensures Held(src, before) ==> DestCopied(src, After(src, Start(src, before), acts), before)
  {
    StartInv(src, before);
    if Held(src, before) {
      assert before == before[..src.start] + before[src.start..];
    }
    RunKeeps(src, Start(src, before), acts, before);
  }

  lemma WrittenWithin(src: Source, c: Copy, before: seq<byte>)
    requires DestCopied(src, c, before)
    ensures c.written <= |src.content|
  {
  }

  /** What the invariant says of the blocks handed over, and of the end. */
  lemma InvResult(src: Source, c: Copy)
    requires ValidSource(src) && Inv(src, c)
    ensures c.taken <= Blocks(src, src.start)
    ensures c.copier.Finished? && !c.failed ==> c.taken == Blocks(src, src.start) && c.written >= |src.content|
  {
    if EndTaken(c.taken) {
      EndReached(src, c.taken);
    }
  }

  /** A complete copy onto a destination no longer than the source makes it the source. */
  lemma CompleteCopy(src: Source, before: seq<byte>, acts: seq<Act>)
    requires ValidSource(src) && Valid(src, Start(src, before), acts)
    requires Held(src, before) && |before| <= |src.content|
    requires var c := After(src, Start(src, before), acts); c.copier.Finished? && !c.failed
    ensures After(src, Start(src, before), acts).dest == src.content
  {
    CopyIsRight(src, before, acts);
    assert src.content[..|src.content|] == src.content;
  }

  /** What a failed copy leaves can be resumed where it ends. */
  lemma FailedCopyResumes(src: Source, before: seq<byte>, acts: seq<Act>)
    requires ValidSource(src) && Valid(src, Start(src, before), acts)
    requires Held(src, before) && |before| == src.start
    ensures var dest := After(src, Start(src, before), acts).dest;
            Held(src.(start := |dest|), dest) && |dest| >= src.start
  {
    CopyIsRight(src, before, acts);
  }

  // ---- both threads finish ---------------------------------------------------------------------

  predicate Done(c: Copy) {
    c.reader.Ended? && c.copier.Finished?
  }

  function ReaderRank(src: Source, r: Reader): nat {
    match r
    case Ended => 0
    case Opening => 4 * Remaining(src, src.start) + 5
    case Reading(p) => 4 * Remaining(src, p) + 4
    case Offering(b) => 4 * Remaining(src, b.pos) + 3
  }

  function CopierRank(c: Copier): nat {
    match c
    case Getting => 2
    case Writing(_) => 3
    case Closing => 1
    case Finished => 0
  }

  function Rank(src: Source, c: Copy): nat {
    ReaderRank(src, c.reader) + CopierRank(c.copier) + if c.slot.Some? then 2 else 0
  }

  /** Every step brings the end nearer. */
  lemma StepDescends(src: Source, c: Copy, a: Act)
    requires ValidSource(src) && Inv(src, c) && Enabled(c, a)
    ensures Rank(src, Step(src, c, a)) < Rank(src, c)
  {
    if a.ReaderOpens? || a.ReaderReads? || a.ReaderOffers? {
      ReaderDescends(src, c, a);
    } else {
      CopierDescends(src, c, a);
    }
  }

  lemma ReaderDescends(src: Source, c: Copy, a: Act)
    requires ValidSource(src) && ReaderInStep(src, c) && Enabled(c, a)
    requires a.ReaderOpens? || a.ReaderReads? || a.ReaderOffers?
    ensures Rank(src, Step(src, c, a)) < Rank(src, c)
  {
  }

  lemma CopierDescends(src: Source, c: Copy, a: Act)
    requires Enabled(c, a) && (a.CopierGets? || a.CopierWrites? || a.CopierStops?)
    ensures Rank(src, Step(src, c, a)) < Rank(src, c)
  {
  }

  /** No deadlock: until both are done, one of the threads can go on. Once the
      copier stopped, it is the reader that can. */
  lemma SomeoneGoesOn(src: Source, c: Copy) returns (a: Act)
    requires ValidSource(src) && Inv(src, c) && !Done(c)
    ensures Enabled(c, a)
    ensures c.stopped ==> a.ReaderOpens? || a.ReaderReads? || a.ReaderOffers?
  {
    a := match c.reader
      case Opening => ReaderOpens(true)
      case Reading(_) => ReaderReads(true)
      case _ =>
        if c.reader.Offering? && (c.slot.None? || c.stopped) then ReaderOffers
        else match c.copier
          case Getting => CopierGets
          case Writing(_) => CopierWrites(true)
          case _ => CopierStops;
  }

  /** Steps a reader can still take once it is told to stop. */
  function StepsToEnd(r: Reader): nat {
    match r
    case Ended => 0
    case Reading(_) => 2
    case _ => 1
  }

  /** After stop only the reader takes steps, at most two, and until it has ended it can take one. */
  lemma {:induction false} StoppedReaderEnds(src: Source, c: Copy, acts: seq<Act>)
    requires ValidSource(src) && Inv(src, c) && c.stopped && Valid(src, c, acts)
    ensures |acts| + StepsToEnd(After(src, c, acts).reader) <= StepsToEnd(c.reader)
    ensures !After(src, c, acts).reader.Ended? ==> exists a :: Enabled(After(src, c, acts), a)
    decreases |acts|
  {
    if acts == [] {
      if !c.reader.Ended? {
        var a := SomeoneGoesOn(src, c);
      }
    } else {
      StepKeepsInv(src, c, acts[0]);
      StoppedReaderEnds(src, Step(src, c, acts[0]), acts[1..]);
    }
  }

  /** Every run is finite, and one that cannot go on has both threads finished. */
  lemma {:induction false} RunsEnd(src: Source, before: seq<byte>, acts: seq<Act>)
    requires ValidSource(src) && Valid(src, Start(src, before), acts)
    ensures |acts| <= 4 * Remaining(src, src.start) + 7
    ensures var c := After(src, Start(src, before), acts); (forall a :: !Enabled(c, a)) ==> Done(c)
  {
    StartInv(src, before);
    RunKeeps(src, Start(src, before), acts, before);
    RunDescends(src, Start(src, before), acts);
    var c := After(src, Start(src, before), acts);
    if !Done(c) {
      var a := SomeoneGoesOn(src, c);
    }
  }

  lemma {:induction false} RunDescends(src: Source, c: Copy, acts: seq<Act>)
    requires ValidSource(src) && Inv(src, c) && Valid(src, c, acts)
    ensures Rank(src, After(src, c, acts)) + |acts| <= Rank(src, c)
    decreases |acts|
  {
    if acts != [] {
      StepKeepsInv(src, c, acts[0]);
      StepDescends(src, c, acts[0]);
      RunDescends(src, Step(src, c, acts[0]), acts[1..]);
    }
  }
}
