/** The receiving loop over chunked input, and the way of a list of fields from
    the sender's layout to the receiver's reads. */
module SerialLink {
  import opened Bits
  import opened BitCodec
  import opened Framing
  import opened BitBuffer
  import opened RecordCode

  function Concat(pieces: seq<seq<byte>>): seq<byte> {
    if pieces == [] then [] else Concat(pieces[..|pieces| - 1]) + pieces[|pieces| - 1]
  }

  function Unpacked(payloads: seq<seq<byte>>): (r: seq<seq<nat>>)
    ensures |r| == |payloads|
  {
    if payloads == [] then [] else Unpacked(payloads[..|payloads| - 1]) + [UnpackWords(payloads[|payloads| - 1])]
  }

  lemma UnpackedAppend(a: seq<seq<byte>>, b: seq<byte>)
    ensures Unpacked(a + [b]) == Unpacked(a) + [UnpackWords(b)]
  {
    assert (a + [b])[..|a|] == a;
  }

  /** The words of all complete frames in a stream. */
  ghost function Frames(s: seq<byte>): seq<seq<nat>> {
    Unpacked(Payloads(s))
  }

  /** Parses up to the next frame, and unpacks it if there is one. */
  method NextFrame(buf: Buffer, data: seq<byte>, start: nat) returns (frames: seq<seq<nat>>, pos: nat)
    requires buf.Valid() && start < |data|
    modifies buf, buf.buffer
    ensures buf.Valid() && start < pos <= |data|
    ensures buf.consumed == old(buf.consumed) + data[start..pos]
    ensures Frames(buf.consumed) == Frames(old(buf.consumed)) + frames
  {
    ghost var before := Payloads(buf.consumed);
    var frame;
    frame, pos := buf.ParseData(data, start, |data| - start);
    frames := [];
    if frame {
      UnpackedAppend(before, buf.Bytes());
      buf.UnpackInPlace();
      var ws := buf.WordList();
      frames := [ws];
    }
  }

  lemma AppendAssoc<T>(a: seq<T>, b: seq<T>, c: seq<T>)
    ensures a + b + c == a + (b + c)
  {
  }

  /** One read from the line: handle every frame it completes. */
  method ReceivePiece(buf: Buffer, data: seq<byte>) returns (frames: seq<seq<nat>>)
    requires buf.Valid()
    modifies buf, buf.buffer
    ensures buf.Valid() && buf.consumed == old(buf.consumed) + data
    ensures Frames(buf.consumed) == Frames(old(buf.consumed)) + frames
  {
    ghost var history, base := buf.consumed, Frames(buf.consumed);
    frames := [];
    var pos := 0;
    while pos < |data|
      invariant 0 <= pos <= |data| && buf.Valid()
      invariant buf.consumed == history + data[..pos]
      invariant Frames(buf.consumed) == base + frames
      decreases |data| - pos
    {
      ghost var start := pos;
      var more;
      more, pos := NextFrame(buf, data, pos);
      AppendAssoc(history, data[..start], data[start..pos]);
      AppendAssoc(base, frames, more);
      JoinSlices(data, start, pos);
      frames := frames + more;
    }
    JoinSlices(data, 0, |data|);
  }

  lemma JoinSlices(data: seq<byte>, a: nat, b: nat)
    requires a <= b <= |data|
    ensures data[..a] + data[a..b] == data[..b]
    ensures data[..|data|] == data
  {
  }

  lemma ConcatStep(pieces: seq<seq<byte>>, i: nat)
    requires i < |pieces|
    ensures Concat(pieces[..i + 1]) == Concat(pieces[..i]) + pieces[i]
  {
    assert pieces[..i + 1][..i] == pieces[..i];
  }

  /** However the stream is cut into pieces, the frames are those of the whole stream. */
  method Receive(buf: Buffer, pieces: seq<seq<byte>>) returns (frames: seq<seq<nat>>)
    requires buf.Valid()
    modifies buf, buf.buffer
    ensures buf.Valid() && buf.consumed == old(buf.consumed) + Concat(pieces)
    ensures Frames(old(buf.consumed) + Concat(pieces)) == Frames(old(buf.consumed)) + frames
  {
    ghost var history, base := buf.consumed, Frames(buf.consumed);
    frames := [];
    var i := 0;
    while i < |pieces|
      invariant 0 <= i <= |pieces| && buf.Valid()
      invariant buf.consumed == history + Concat(pieces[..i])
      invariant Frames(buf.consumed) == base + frames
    {
      ConcatStep(pieces, i);
      var more := ReceivePiece(buf, pieces[i]);
      AppendAssoc(history, Concat(pieces[..i]), pieces[i]);
      AppendAssoc(base, frames, more);
      frames := frames + more;
      i := i + 1;
    }
    assert pieces[..i] == pieces;
  }

  /** Reading the fields a frame carries gives their values. */
  method ReadChunks(buf: Buffer, chunks: seq<Chunk>) returns (values: seq<nat>)
    requires buf.Readable() && ValidChunks(chunks)
    requires Carries(Flat(buf.Words()), buf.Cursor(), chunks)
    modifies buf`wordPos, buf`bitPos
    ensures buf.Readable() && buf.Cursor() == old(buf.Cursor()) + Width(chunks)
    ensures |values| == |chunks| && forall i :: 0 <= i < |chunks| ==> values[i] == chunks[i].value
  {
    values := [];
    var i := 0;
    assert chunks[0..] == chunks;
    while i < |chunks|
      invariant 0 <= i <= |chunks| && buf.Readable()
      invariant Carries(Flat(buf.Words()), buf.Cursor(), chunks[i..])
      invariant buf.Cursor() + Width(chunks[i..]) == old(buf.Cursor()) + Width(chunks)
      invariant |values| == i && forall k :: 0 <= k < i ==> values[k] == chunks[k].value
    {
      assert chunks[i..][1..] == chunks[i + 1..];
      var v := ReadChunk(buf, chunks[i].width, chunks[i..]);
      values := values + [v];
      i := i + 1;
    }
  }

  method ReadChunk(buf: Buffer, width: nat, ghost rest: seq<Chunk>) returns (v: nat)
    requires buf.Readable() && width <= 32
    requires rest != [] && rest[0].width == width && Carries(Flat(buf.Words()), buf.Cursor(), rest)
    modifies buf`wordPos, buf`bitPos
    ensures buf.Readable() && buf.Cursor() == old(buf.Cursor()) + width && v == rest[0].value
    ensures Carries(Flat(buf.Words()), buf.Cursor(), rest[1..])
    ensures Width(rest) == width + Width(rest[1..])
  {
    v := buf.ReadBits(width);
  }

  /** No frame ends inside a framed payload. */
  lemma NoEarlyFrame(history: seq<byte>, payload: seq<byte>, pos: nat)
    requires Plain(payload) && pos < |Framed(payload)|
    ensures Payloads(history + Framed(payload)[..pos]) == Payloads(history)
  {
    if pos == 0 {
      assert history + Framed(payload)[..0] == history;
    } else {
      AfterStx(history);
      AddPlain(history + [STX], payload, |history|, pos - 1);
      assert history + Framed(payload)[..pos] == history + [STX] + payload[..pos - 1];
    }
  }

  lemma ListGrows(a: seq<seq<byte>>, b: seq<byte>)
    ensures a + [b] != a
    ensures forall c: seq<byte> :: a + [b] == a + [c] ==> b == c
  {
    assert |a + [b]| == |a| + 1;
    forall c: seq<byte> | a + [b] == a + [c] ensures b == c {
      assert (a + [b])[|a|] == b && (a + [c])[|a|] == c;
    }
  }

  /** What a call over a framed payload can report. */
  lemma FramedOutcome(history: seq<byte>, payload: seq<byte>, pos: nat, frame: bool, bytes: seq<byte>)
    requires Plain(payload) && 2 <= |payload| <= MAXBUFFER && pos <= |Framed(payload)|
    requires frame ==> Payloads(history + Framed(payload)[..pos]) == Payloads(history) + [bytes]
    requires !frame ==> pos == |Framed(payload)| && Payloads(history + Framed(payload)[..pos]) == Payloads(history)
    ensures frame && bytes == payload
  {
    ListGrows(Payloads(history), payload);
    ListGrows(Payloads(history), bytes);
    FramedPayload(history, payload);
    assert Framed(payload)[..|Framed(payload)|] == Framed(payload);
    if pos < |Framed(payload)| {
      NoEarlyFrame(history, payload, pos);
    }
  }

  /** A framed payload, given to the parser in one call, is the frame it reports. */
  method ReceiveFramed(buf: Buffer, payload: seq<byte>)
    requires buf.Valid() && Plain(payload) && 2 <= |payload| <= MAXBUFFER
    modifies buf, buf.buffer
    ensures buf.Valid() && !buf.inFrame && buf.Bytes() == payload && buf.wordPos == buf.bitPos == 0
  {
    ghost var history := buf.consumed;
    var stream := Framed(payload);
    var frame, pos := buf.ParseData(stream, 0, |stream|);
    assert stream[0..pos] == stream[..pos];
    FramedOutcome(history, payload, pos, frame, buf.Bytes());
  }

  /** End to end: fields of up to 32 bits that fit in `n` <= 128 words, sent
      through packing and framing after any earlier traffic, are read back unchanged. */
  method RoundTrip(buf: Buffer, chunks: seq<Chunk>, n: nat) returns (values: seq<nat>)
    requires buf.Valid() && ValidChunks(chunks) && Width(chunks) <= 15 * n && 1 <= n <= 128
    modifies buf, buf.buffer
    ensures |values| == |chunks| && forall i :: 0 <= i < |chunks| ==> values[i] == chunks[i].value
  {
    var ws := ToWords(Layout(chunks), n);
    ReceivePacked(buf, ws);
    SentWords(chunks, n);
    values := ReadChunks(buf, chunks);
  }

  /** The words of a packed and framed message, received and unpacked. */
  method ReceivePacked(buf: Buffer, ws: seq<nat>)
    requires buf.Valid() && Words15(ws) && 1 <= |ws| <= 128
    modifies buf, buf.buffer
    ensures buf.Valid() && buf.Readable() && buf.Cursor() == 0 && buf.bufferLen == 2 * |ws|
    ensures buf.Words() == UnpackWords(PackBytes(ws))
  {
    PackedPlain(ws);
    ReceiveFramed(buf, PackBytes(ws));
    buf.UnpackInPlace();
  }
}
