/** The copy of one file as the two threads carry it out, one critical section or
    file operation at a time. */
module FileTransfer {
  import opened BitCodec
  import opened FileCopy
  import opened Wrappers

  class Transfer {
    const src: Source
    var reader: Reader          // where the reader thread is
    var copier: Copier          // where the copying loop is
    var data: Option<Block>     // the slot
    var error: bool
    var filenameSet: bool
    var dest: seq<byte>
    ghost var taken: seq<Block>
    ghost var written: nat
    ghost var failed: bool

    constructor (src: Source, dest: seq<byte>)
      ensures this.src == src && Abs() == Start(src, dest)
    {
      this.src, this.dest := src, dest;
      reader, copier, data, error, filenameSet := Opening, Getting, None, false, true;
      taken, written, failed := [], src.start, false;
    }

    ghost function Abs(): Copy
      reads this
    {
      Copy(reader, copier, data, error, !filenameSet, dest, taken, written, failed)
    }

    /** An exception in the reader thread. */
    method ReaderFails()
      modifies this`reader, this`error, this`failed
      ensures reader == Ended && error && failed
    {
      error := true;
      reader := Ended;
      failed := true;
    }

    method OpenFile(ok: bool)
      requires reader.Opening?
      modifies this`reader, this`error, this`failed
      ensures Abs() == Step(src, old(Abs()), ReaderOpens(ok))
    {
      if ok && filenameSet {
        reader := Reading(src.start);
      } else {
        ReaderFails();
      }
    }

    method ReadBlock(ok: bool)
      requires reader.Reading?
      modifies this`reader, this`error, this`failed
      ensures Abs() == Step(src, old(Abs()), ReaderReads(ok))
    {
      if ok {
        var cpos := reader.pos;
        reader := Offering(Block(cpos, ReadAt(src, cpos)));
      } else {
        ReaderFails();
      }
    }

    /** The reader's critical section, entered when the slot is free or the name is gone. */
    method OfferBlock()
      requires reader.Offering? && (data.None? || !filenameSet)
      modifies this`reader, this`data
      ensures Abs() == Step(src, old(Abs()), ReaderOffers)
    {
      if !filenameSet {
        reader := Ended;
        return;
      }
      var block := reader.block;
      data := Some(block);
      if block.data == [] {
        reader := Ended;
      } else {
        reader := Reading(block.pos + |block.data|);
      }
    }

    /** The copier's critical section, entered when there is a block or an error;
        the error wins. */
    method GetData() returns (block: Option<Block>)
      requires copier.Getting? && (data.Some? || error)
      modifies this`copier, this`data, this`taken
      ensures Abs() == Step(src, old(Abs()), CopierGets)
      ensures block == if old(error) then None else old(data)
    {
      if error {
        copier := Closing;
        return None;
      }
      block := data;
      data := None;
      taken := taken + [block.value];
      if block.value.data == [] {
        copier := Closing;
      } else {
        copier := Writing(block.value);
      }
    }

    method WriteBlock(ok: bool)
      requires copier.Writing?
      modifies this`copier, this`dest, this`written, this`failed
      ensures Abs() == Step(src, old(Abs()), CopierWrites(ok))
    {
      if ok {
        var block := copier.block;
        dest := WriteAt(dest, block.pos, block.data);
        written := block.pos + |block.data|;
        copier := Getting;
      } else {
        failed := true;
        copier := Closing;
      }
    }

    method Stop()
      requires copier.Closing?
      modifies this`copier, this`filenameSet
      ensures Abs() == Step(src, old(Abs()), CopierStops)
    {
      filenameSet := false;
      copier := Finished;
    }
  }

  /** The steps taken under one schedule of the threads: the class follows the
      specified run, so a schedule that lets the copy finish without a failure
      leaves the source in the destination. */
  method Perform(src: Source, before: seq<byte>, acts: seq<Act>) returns (t: Transfer)
    requires ValidSource(src) && Valid(src, Start(src, before), acts)
    ensures t.Abs() == After(src, Start(src, before), acts)
    ensures Held(src, before) && |before| <= |src.content| && t.copier.Finished? && !t.failed ==> t.dest == src.content
  {
    t := new Transfer(src, before);
    var i := 0;
    while i < |acts|
      invariant 0 <= i <= |acts| && fresh(t) && t.src == src
      invariant Valid(src, t.Abs(), acts[i..])
      invariant After(src, t.Abs(), acts[i..]) == After(src, Start(src, before), acts)
    {
      assert acts[i..][1..] == acts[i + 1..];
      match acts[i] {
        case ReaderOpens(ok) => t.OpenFile(ok);
        case ReaderReads(ok) => t.ReadBlock(ok);
        case ReaderOffers => t.OfferBlock();
        case CopierGets => var _ := t.GetData();
        case CopierWrites(ok) => t.WriteBlock(ok);
        case CopierStops => t.Stop();
      }
      i := i + 1;
    }
    if Held(src, before) && |before| <= |src.content| && t.copier.Finished? && !t.failed {
      CompleteCopy(src, before, acts);
    }
  }
}
